/** The form encoder (libahttp/cgi.C) and the round trip through the parser. */
module FormEncode {
  import opened Bytes
  import opened FormCodec
  import opened PairSpec

  /** REGCHARTAB: letters, digits, '-', '.' and '_' stand for themselves. */
  predicate Regular(b: byte) {
    b == 45 || b == 46 || 48 <= b <= 57 || 65 <= b <= 90 || b == 95 || 97 <= b <= 122
  }

  function Escape(b: byte): bytes {
    [PERCENT, HexDigit(b / 16, false), HexDigit(b % 16, false)]
  }

  /** With full false only ';' is escaped. */
  function EncodeByte(b: byte, full: bool): (r: bytes)
    ensures 1 <= |r| <= 3
  {
    if full then
      if Regular(b) then [b] else if b == SPACE then [PLUS] else Escape(b)
    else
      if b == 59 then Escape(b) else [b]
  }

  predicate LowerDigit(b: byte) {
    '0' as int <= b <= '9' as int || 'a' as int <= b <= 'f' as int
  }

  predicate LetterOrDigit(b: byte) {
    'A' as int <= b <= 'Z' as int || 'a' as int <= b <= 'z' as int || '0' as int <= b <= '9' as int
  }

  /** A byte is written as itself exactly if it is a letter, a digit, '-', '.' or '_'; a space as '+'; and every other
      as a percent sign and the two lower-case digits that write it. */
  lemma EncodeByteIs(b: byte)
    ensures EncodeByte(b, true) == [b] <==>
      LetterOrDigit(b) || b == '-' as int || b == '.' as int || b == '_' as int
    ensures EncodeByte(' ' as int, true) == ['+' as int]
    ensures var r := EncodeByte(b, true);
      r == [b] || b == ' ' as int
      || (|r| == 3 && r[0] == '%' as int && LowerDigit(r[1]) && LowerDigit(r[2])
          && HexVal(r[1]) == Some(b / 16) && HexVal(r[2]) == Some(b % 16))
    ensures EncodeByte(b, false) == [b] <==> b != ';' as int
  {
    HexDigitValue(b / 16);
    HexDigitValue(b % 16);
  }

  function Encode(s: bytes, full: bool): (r: bytes)
    ensures |s| <= |r| <= 3 * |s|
  {
    if s == [] then [] else EncodeByte(s[0], full) + Encode(s[1..], full)
  }

  predicate Escaped(b: byte, full: bool) {
    if full then !Regular(b) && b != SPACE else b == 59
  }

  /** The size of the buffer that cgi_encode works in: the caller's if that is given and large enough. */
  function BufferFor(inlen: nat, given: Option<nat>, dflt: nat): nat {
    if given.None? then Max(3 * inlen, dflt) else Max(3 * inlen, given.value)
  }

  /** cgi_encode. sprintf ends what it writes with a NUL; overrun says that one was due just past the buffer, which
      happens exactly when every byte is escaped and the buffer has three bytes for each and no more. */
  method CgiEncode(s: bytes, full: bool, given: Option<nat>, dflt: nat) returns (r: bytes, overrun: bool)
    ensures r == Encode(s, full)
    ensures overrun <==>
      |s| > 0 && BufferFor(|s|, given, dflt) == 3 * |s| && forall i :: 0 <= i < |s| ==> Escaped(s[i], full)
  {
    hide EncodeByte, Encode, Escaped, Escape;
    var scr := new byte[BufferFor(|s|, given, dflt)];
    var op: nat := 0;
    overrun := false;
    ghost var done: bytes := [];
    assert s[0..] == s;
    for i := 0 to |s|
      invariant op == |done| <= 3 * i && scr[..op] == done
      invariant op == 3 * i <==> forall j :: 0 <= j < i ==> Escaped(s[j], full)
      invariant overrun <==> 0 < i == |s| && scr.Length == 3 * |s| == op
      invariant done + Encode(s[i..], full) == Encode(s, full)
    {
      EncodeFrom(s, i, full);
      EscapedLength(s[i], full);
      var e := EncodeByte(s[i], full);
      op := WriteAt(scr, op, e);
      if Escaped(s[i], full) {
        overrun := EndString(scr, op);
      }
      assert done + (e + Encode(s[i + 1..], full)) == (done + e) + Encode(s[i + 1..], full);
      done := done + e;
    }
    r := scr[..op];
    assert |Encode(s[|s|..], full)| == 0;
  }

  lemma EscapedLength(b: byte, full: bool)
    ensures Escaped(b, full) <==> |EncodeByte(b, full)| == 3
  {
  }

  /** Writing characters into the buffer. */
  method WriteAt(scr: array<byte>, op: nat, e: bytes) returns (end: nat)
    requires op + |e| <= scr.Length
    modifies scr
    ensures end == op + |e| && scr[..end] == old(scr[..op]) + e
  {
    forall j | 0 <= j < |e| {
      scr[op + j] := e[j];
    }
    end := op + |e|;
  }

  /** The NUL at the end of what sprintf wrote; there is no place for it at the end of the buffer. */
  method EndString(scr: array<byte>, op: nat) returns (past: bool)
    requires op <= scr.Length
    modifies scr
    ensures past <==> op == scr.Length
    ensures scr[..op] == old(scr[..op])
  {
    past := op == scr.Length;
    if !past {
      scr[op] := 0;
    }
  }

  lemma EncodeFrom(s: bytes, i: nat, full: bool)
    requires i < |s|
    ensures Encode(s[i..], full) == EncodeByte(s[i], full) + Encode(s[i + 1..], full)
  {
    assert s[i..][0] == s[i] && s[i..][1..] == s[i + 1..];
  }

  lemma HexDigitValue(n: nat)
    requires n < 16
    ensures HexVal(HexDigit(n, false)) == Some(n)
  {
  }

  lemma RunThree(p: Parser, a: byte, b: byte, c: byte, limit: nat)
    ensures Run(p, [a, b, c], limit) == Step(Step(Step(p, a, limit), b, limit), c, limit)
  {
    hide Step;
    assert [a, b] + [c] == [a, b, c] && [a] + [b] == [a, b] && [] + [a] == [a];
    RunSnoc(p, [a, b], c, limit);
    RunSnoc(p, [a], b, limit);
    RunSnoc(p, [], a, limit);
  }

  /** An encoded byte is read back as that byte, in any parser state outside an escape. */
  lemma DecodeByte(p: Parser, b: byte, limit: nat)
    requires p.hex == NoHex
    ensures Run(p, EncodeByte(b, true), limit) == Put(p, b, limit)
  {
    if Regular(b) {
      assert [b][1..] == [];
    } else if b == SPACE {
      assert [PLUS][1..] == [];
    } else {
      var h, l := HexDigit(b / 16, false), HexDigit(b % 16, false);
      HexDigitValue(b / 16);
      HexDigitValue(b % 16);
      var p1 := p.(hex := Hex0);
      var p2 := p.(hex := Hex1(b / 16, h));
      RunThree(p, PERCENT, h, l, limit);
      assert Step(p, PERCENT, limit) == p1;
      assert Step(p1, h, limit) == p2;
      assert p2.(hex := NoHex) == p && 16 * (b / 16) + b % 16 == b;
    }
  }

  /** p holds a field that its buffer, at most limit or cap bytes long, can still grow by n bytes. */
  predicate Fits(p: Parser, n: nat, limit: nat) {
    p.hex == NoHex && |p.field| < p.cap && (|p.field| + n < limit || |p.field| + n < p.cap)
  }

  /** q is p with s read into its field. */
  predicate ReadInto(q: Parser, p: Parser, s: bytes, limit: nat) {
    && q == p.(field := p.field + s, cap := q.cap)
    && |q.field| < q.cap && p.cap <= q.cap && (q.cap <= limit || q.cap == p.cap)
  }

  lemma {:induction false} DecodeField(p: Parser, s: bytes, limit: nat)
    requires Fits(p, |s|, limit)
    ensures ReadInto(Run(p, Encode(s, true), limit), p, s, limit)
    decreases |s|
  {
    if s == [] {
      assert p.field + [] == p.field;
    } else {
      var e, rest := EncodeByte(s[0], true), Encode(s[1..], true);
      RunConcat(p, e, rest, limit);
      DecodeByte(p, s[0], limit);
      var q := Put(p, s[0], limit);
      assert q.field == p.field + [s[0]];
      DecodeField(q, s[1..], limit);
      assert p.field + [s[0]] + s[1..] == p.field + s;
    }
  }

  /** Where a field does not fit, part of it is dropped. */
  lemma {:induction false} DecodeOverflow(p: Parser, s: bytes, limit: nat)
    requires p.hex == NoHex && |p.field| < p.cap && !Fits(p, |s|, limit)
    ensures Run(p, Encode(s, true), limit).drops > p.drops
    decreases |s|
  {
    var e, rest := EncodeByte(s[0], true), Encode(s[1..], true);
    RunConcat(p, e, rest, limit);
    DecodeByte(p, s[0], limit);
    var q := Put(p, s[0], limit);
    if q.drops > p.drops {
      DropsGrow(q, rest, limit);
    } else {
      DecodeOverflow(q, s[1..], limit);
    }
  }

  lemma {:induction false} DecodeEndsEscapes(p: Parser, s: bytes, limit: nat)
    requires p.hex == NoHex
    ensures Run(p, Encode(s, true), limit).hex == NoHex
    decreases |s|
  {
    if s != [] {
      RunConcat(p, EncodeByte(s[0], true), Encode(s[1..], true), limit);
      DecodeByte(p, s[0], limit);
      DecodeEndsEscapes(Put(p, s[0], limit), s[1..], limit);
    }
  }

  /** cgi_decode: one field with no separators, so that '&' and '=' are ordinary. It gives back what was encoded if
      and only if that is shorter than the buffer is or may grow, and otherwise drops part of it. */
  lemma CgiRoundTrip(s: bytes, cap: nat, limit: nat)
    requires cap > 0
    ensures var p := Run(Init(cap).(st := NoVar), Encode(s, true), limit);
      && p.hex == NoHex
      && (p.drops == 0 <==> |s| < limit || |s| < cap)
      && (p.drops == 0 ==> p.field == s)
  {
    var p := Init(cap).(st := NoVar);
    DecodeEndsEscapes(p, s, limit);
    if |s| < limit || |s| < cap {
      DecodeField(p, s, limit);
      assert [] + s == s;
    } else {
      DecodeOverflow(p, s, limit);
    }
  }

  /** All pairs of a table, key by key in the given order. */
  function Flatten(order: seq<bytes>, vals: map<bytes, seq<bytes>>): seq<(bytes, bytes)>
    requires forall k <- order :: k in vals
  {
    if order == [] then [] else PairsOf(order[0], vals[order[0]]) + Flatten(order[1..], vals)
  }

  function PairsOf(k: bytes, vs: seq<bytes>): seq<(bytes, bytes)> {
    seq(|vs|, i requires 0 <= i < |vs| => (k, vs[i]))
  }

  function EncodePair(kv: (bytes, bytes)): bytes {
    Encode(kv.0, true) + [EQUALS] + Encode(kv.1, true)
  }

  /** The text of a form: the pairs, with '&' between them. */
  function Join(pairs: seq<(bytes, bytes)>): bytes {
    if pairs == [] then []
    else if |pairs| == 1 then EncodePair(pairs[0])
    else EncodePair(pairs[0]) + [AMP] + Join(pairs[1..])
  }

  function Inserts(pairs: seq<(bytes, bytes)>): seq<Insert> {
    seq(|pairs|, i requires 0 <= i < |pairs| => Insert(Some(pairs[i].0), Some(pairs[i].1)))
  }

  /** Ready to read a key. */
  predicate AtKey(p: Parser) {
    p.st == InKey && p.hex == NoHex && p.field == [] && p.cap > 0
  }

  predicate AllFit(pairs: seq<(bytes, bytes)>, bound: nat) {
    forall kv <- pairs :: |kv.0| < bound && |kv.1| < bound
  }

  /** Reading one encoded pair leaves the parser in its value, with the key remembered. */
  lemma DecodePair(p: Parser, kv: (bytes, bytes), limit: nat)
    requires AtKey(p) && |kv.0| < Max(p.cap, limit) && |kv.1| < Max(p.cap, limit)
    ensures var q := Run(p, EncodePair(kv), limit);
      q == Parser(InVal, Some(kv.0), kv.1, NoHex, q.cap, p.out, p.drops) && |q.field| < q.cap && p.cap <= q.cap
  {
    var k, v := Encode(kv.0, true), Encode(kv.1, true);
    RunConcat(p, k + [EQUALS], v, limit);
    RunSnoc(p, k, EQUALS, limit);
    DecodeField(p, kv.0, limit);
    assert [] + kv.0 == kv.0;
    var q := Step(Run(p, k, limit), EQUALS, limit);
    assert q == Parser(InVal, Some(kv.0), [], NoHex, q.cap, p.out, p.drops);
    DecodeField(q, kv.1, limit);
    assert [] + kv.1 == kv.1;
  }

  /** The parser inserts exactly the encoded pairs, in order. */
  lemma {:induction false} DecodePairs(p: Parser, pairs: seq<(bytes, bytes)>, limit: nat)
    requires AtKey(p) && AllFit(pairs, Max(p.cap, limit)) && pairs != []
    ensures Finish(Run(p, Join(pairs), limit), false) == p.out + Inserts(pairs)
    decreases |pairs|
  {
    hide EncodePair;
    var q := Run(p, EncodePair(pairs[0]), limit);
    DecodePair(p, pairs[0], limit);
    if |pairs| == 1 {
      assert Inserts(pairs) == [Insert(Some(pairs[0].0), Some(pairs[0].1))];
    } else {
      RunConcat(p, EncodePair(pairs[0]) + [AMP], Join(pairs[1..]), limit);
      RunSnoc(p, EncodePair(pairs[0]), AMP, limit);
      var r := Step(q, AMP, limit);
      DecodePairs(r, pairs[1..], limit);
      assert Inserts(pairs) == [Insert(Some(pairs[0].0), Some(pairs[0].1))] + Inserts(pairs[1..]);
      assert r.out + Inserts(pairs[1..]) == p.out + Inserts(pairs);
    }
  }

  lemma {:induction false} JoinSnoc(pairs: seq<(bytes, bytes)>, kv: (bytes, bytes))
    ensures Join(pairs + [kv]) == Lead(pairs) + EncodePair(kv)
    decreases |pairs|
  {
    hide EncodePair;
    if |pairs| > 0 {
      JoinSnoc(pairs[1..], kv);
      assert (pairs + [kv])[1..] == pairs[1..] + [kv];
      var e := EncodePair(pairs[0]) + [AMP];
      if |pairs| > 1 {
        assert e + (Join(pairs[1..]) + [AMP] + EncodePair(kv)) == e + Join(pairs[1..]) + [AMP] + EncodePair(kv);
      }
    }
  }

  /** pairtab's encode over the hash's traversal order; a pair without data writes nothing. */
  method EncodeTable(order: seq<bytes>, vals: map<bytes, seq<bytes>>, scratch: nat) returns (out: bytes)
    requires forall k <- order :: k in vals
    ensures out == Join(Flatten(order, vals))
  {
    out := [];
    var first := true;
    ghost var done: seq<(bytes, bytes)> := [];
    assert order[0..] == order && done + Flatten(order, vals) == Flatten(order, vals);
    hide *;
    for i := 0 to |order|
      invariant out == Join(done) && (first <==> done == [])
      invariant done + Flatten(order[i..], vals) == Flatten(order, vals)
    {
      ghost var pairs := PairsOf(order[i], vals[order[i]]);
      ghost var rest := Flatten(order[i + 1..], vals);
      FlattenFrom(order, i, vals);
      assert done + (pairs + rest) == (done + pairs) + rest;
      out, first := EncodePairs(order[i], vals[order[i]], scratch, out, first, done);
      done := done + pairs;
    }
    FlattenFrom(order, |order|, vals);
    assert done + [] == done;
  }

  lemma FlattenFrom(order: seq<bytes>, i: nat, vals: map<bytes, seq<bytes>>)
    requires i <= |order| && forall k <- order :: k in vals
    ensures i < |order| ==>
      Flatten(order[i..], vals) == PairsOf(order[i], vals[order[i]]) + Flatten(order[i + 1..], vals)
    ensures i == |order| ==> Flatten(order[i..], vals) == []
  {
    if i < |order| {
      assert order[i..][1..] == order[i + 1..];
    }
  }

  /** What stands before the next pair. */
  function Lead(pairs: seq<(bytes, bytes)>): bytes {
    if pairs == [] then [] else Join(pairs) + [AMP]
  }

  /** cgi_pair_t::encode, which appends one key's pairs to what has been written. */
  method EncodePairs(key: bytes, vs: seq<bytes>, scratch: nat, out: bytes, first: bool, ghost done: seq<(bytes, bytes)>)
    returns (r: bytes, first': bool)
    requires out == Join(done) && (first <==> done == [])
    ensures r == Join(done + PairsOf(key, vs))
    ensures first' <==> done + PairsOf(key, vs) == []
  {
    r, first' := out, first;
    if |vs| == 0 {
      assert done + PairsOf(key, vs) == done;
      return;
    }
    if first {
      first' := false;
    } else {
      r := r + [AMP];
    }
    hide *;
    var c, _ := CgiEncode(key, true, Some(scratch), 0);
    NoPairs(key, vs, done);
    for i := 0 to |vs|
      invariant i == 0 ==> r == Lead(done)
      invariant i > 0 ==> r == Join(done + PairsOf(key, vs[..i]))
    {
      ghost var pairs := done + PairsOf(key, vs[..i]);
      OneMorePair(key, vs, i, done);
      if i > 0 {
        LeadIs(pairs);
        r := r + [AMP];
      }
      r := EncodeOne(c, vs[i], scratch, r, pairs, key);
    }
    assert vs[..|vs|] == vs;
  }

  lemma NoPairs(key: bytes, vs: seq<bytes>, done: seq<(bytes, bytes)>)
    ensures done + PairsOf(key, vs[..0]) == done
  {
  }

  lemma OneMorePair(key: bytes, vs: seq<bytes>, i: nat, done: seq<(bytes, bytes)>)
    requires i < |vs|
    ensures done + PairsOf(key, vs[..i + 1]) == done + PairsOf(key, vs[..i]) + [(key, vs[i])]
    ensures i > 0 ==> done + PairsOf(key, vs[..i]) != []
    ensures i == 0 ==> done + PairsOf(key, vs[..i]) == done
  {
  }

  /** Writes one key=value; c is the encoded key. */
  method EncodeOne(c: bytes, v: bytes, scratch: nat, out: bytes, ghost pairs: seq<(bytes, bytes)>, ghost key: bytes)
    returns (r: bytes)
    requires out == Lead(pairs) && c == Encode(key, true)
    ensures r == Join(pairs + [(key, v)])
  {
    hide *;
    JoinSnoc(pairs, (key, v));
    PairText(key, v);
    var e, _ := CgiEncode(v, true, Some(scratch), 0);
    assert out + (c + [EQUALS] + e) == out + c + [EQUALS] + e;
    r := out + c + [EQUALS] + e;
  }

  lemma LeadIs(pairs: seq<(bytes, bytes)>)
    requires pairs != []
    ensures Lead(pairs) == Join(pairs) + [AMP]
  {
  }

  lemma PairText(k: bytes, v: bytes)
    ensures EncodePair((k, v)) == Encode(k, true) + [EQUALS] + Encode(v, true)
  {
  }

  /** The table after a sequence of inserts. */
  function Apply(t: Table, ins: seq<Insert>): Table {
    if ins == [] then t
    else
      var last := ins[|ins| - 1];
      Inserted(Apply(t, ins[..|ins| - 1]), last.key, last.val, true)
  }

  lemma ApplySnoc(t: Table, ins: seq<Insert>, i: Insert)
    ensures Apply(t, ins + [i]) == Inserted(Apply(t, ins), i.key, i.val, true)
  {
    assert (ins + [i])[..|ins + [i]| - 1] == ins;
  }

  lemma {:induction false} ApplyConcat(t: Table, a: seq<Insert>, b: seq<Insert>)
    ensures Apply(t, a + b) == Apply(Apply(t, a), b)
    decreases |b|
  {
    if b == [] {
      assert a + b == a;
    } else {
      ApplyConcat(t, a, b[..|b| - 1]);
      assert (a + b)[..|a + b| - 1] == a + b[..|b| - 1];
    }
  }

  function AddKey(t: Table, k: bytes, vs: seq<bytes>): Table {
    if vs == [] then t else Table(t.order + [k], t.vals[k := vs])
  }

  lemma {:induction false} ApplyKey(t: Table, k: bytes, vs: seq<bytes>)
    requires k != [] && k !in t.vals
    ensures Apply(t, Inserts(PairsOf(k, vs))) == AddKey(t, k, vs)
    decreases |vs|
  {
    if vs != [] {
      var front, ins := vs[..|vs| - 1], Inserts(PairsOf(k, vs));
      ApplyKey(t, k, front);
      assert ins[..|ins| - 1] == Inserts(PairsOf(k, front));
      assert front + [vs[|vs| - 1]] == vs;
    }
  }

  /** t with the keys of order that have data added at its end. */
  function AddKeys(t: Table, order: seq<bytes>, vals: map<bytes, seq<bytes>>): Table
    requires forall k <- order :: k in vals
    decreases |order|
  {
    if order == [] then t else AddKeys(AddKey(t, order[0], vals[order[0]]), order[1..], vals)
  }

  lemma {:induction false} ApplyFlatten(t: Table, order: seq<bytes>, vals: map<bytes, seq<bytes>>)
    requires forall k <- order :: k in vals && k != [] && k !in t.vals
    requires Distinct(order)
    ensures Apply(t, Inserts(Flatten(order, vals))) == AddKeys(t, order, vals)
    decreases |order|
  {
    if order != [] {
      var k := order[0];
      var head, rest := PairsOf(k, vals[k]), Flatten(order[1..], vals);
      assert Inserts(head + rest) == Inserts(head) + Inserts(rest);
      ApplyConcat(t, Inserts(head), Inserts(rest));
      ApplyKey(t, k, vals[k]);
      ApplyFlatten(AddKey(t, k, vals[k]), order[1..], vals);
    }
  }

  function WithData(order: seq<bytes>, vals: map<bytes, seq<bytes>>): seq<bytes>
    requires forall k <- order :: k in vals
  {
    if order == [] then []
    else (if vals[order[0]] == [] then [] else [order[0]]) + WithData(order[1..], vals)
  }

  /** The keys of order that have data, with their values. */
  function DataOf(order: seq<bytes>, vals: map<bytes, seq<bytes>>): map<bytes, seq<bytes>>
    requires forall k <- order :: k in vals
  {
    map k | k in order && vals[k] != [] :: vals[k]
  }

  lemma DataOfCons(order: seq<bytes>, vals: map<bytes, seq<bytes>>)
    requires order != [] && forall k <- order :: k in vals
    ensures var k := order[0];
      DataOf(order, vals) == (if vals[k] == [] then map[] else map[k := vals[k]]) + DataOf(order[1..], vals)
  {
    assert forall k :: k in order <==> k == order[0] || k in order[1..];
  }

  lemma {:induction false} AddKeysIs(t: Table, order: seq<bytes>, vals: map<bytes, seq<bytes>>)
    requires forall k <- order :: k in vals
    ensures AddKeys(t, order, vals) == Table(t.order + WithData(order, vals), t.vals + DataOf(order, vals))
    decreases |order|
  {
    hide DataOf;
    if order == [] {
      assert t.vals + DataOf(order, vals) == t.vals by {
        DataOfNone(vals);
      }
    } else {
      var k, rest := order[0], DataOf(order[1..], vals);
      AddKeysIs(AddKey(t, k, vals[k]), order[1..], vals);
      DataOfCons(order, vals);
      AddOver(t.vals, k, vals[k], rest);
      assert t.order + [k] + WithData(order[1..], vals) == t.order + ([k] + WithData(order[1..], vals));
    }
  }

  lemma AddOver(m: map<bytes, seq<bytes>>, k: bytes, v: seq<bytes>, rest: map<bytes, seq<bytes>>)
    ensures m[k := v] + rest == m + (map[k := v] + rest)
    ensures m + rest == m + (map[] + rest)
  {
  }

  lemma DataOfNone(vals: map<bytes, seq<bytes>>)
    ensures DataOf([], vals) == map[]
  {
  }

  /** order lists the keys of t, in whatever order the hash table walks them. */
  predicate TraversalOf(order: seq<bytes>, t: Table) {
    && Distinct(order)
    && (forall k <- order :: k in t.vals)
    && (forall k <- t.vals :: k in order)
  }

  /** t without the keys that have no data. */
  function WithoutEmpty(t: Table, order: seq<bytes>): Table
    requires forall k <- order :: k in t.vals
  {
    Table(WithData(order, t.vals), map k | k in t.vals && t.vals[k] != [] :: t.vals[k])
  }

  /** Every key that has data, and every value, is shorter than bound. */
  predicate Storable(t: Table, bound: nat) {
    forall k <- t.vals :: t.vals[k] != [] ==> |k| < bound && forall v <- t.vals[k] :: |v| < bound
  }

  predicate NamedKeys(t: Table) {
    forall k <- t.vals :: k != []
  }

  lemma {:induction false} FlattenFits(order: seq<bytes>, t: Table, bound: nat)
    requires Storable(t, bound) && forall k <- order :: k in t.vals
    ensures AllFit(Flatten(order, t.vals), bound)
    decreases |order|
  {
    if order != [] {
      FlattenFits(order[1..], t, bound);
    }
  }

  /** The form a table is written as never ends inside an escape. */
  lemma {:induction false} JoinIsComplete(p: Parser, pairs: seq<(bytes, bytes)>, limit: nat)
    requires AtKey(p) && AllFit(pairs, Max(p.cap, limit))
    ensures Run(p, Join(pairs), limit).hex == NoHex
    decreases |pairs|
  {
    if pairs != [] {
      DecodePair(p, pairs[0], limit);
      if |pairs| > 1 {
        var e := EncodePair(pairs[0]);
        RunConcat(p, e + [AMP], Join(pairs[1..]), limit);
        RunSnoc(p, e, AMP, limit);
        JoinIsComplete(Step(Run(p, e, limit), AMP, limit), pairs[1..], limit);
      }
    }
  }

  /** However the encoded form is cut, the parser makes the encoded pairs' inserts, or for a form
      without pairs one insert of an empty key. */
  lemma ParseEncoding(pairs: seq<(bytes, bytes)>, chunks: seq<bytes>, cap: nat, limit: nat)
    requires AllFit(pairs, Max(cap, limit)) && cap > 0
    requires |chunks| > 0 && Concat(chunks) == Join(pairs)
    ensures Outcome(Init(cap), chunks, limit) ==
      if pairs == [] then [Insert(Some([]), None)] else Inserts(pairs)
  {
    var p := Init(cap);
    JoinIsComplete(p, pairs, limit);
    HexBySuffix(p, Join(pairs), limit);
    ChunkIndependence(chunks, cap, limit);
    hide Run, Step;
    if pairs != [] {
      DecodePairs(p, pairs, limit);
      assert p.out + Inserts(pairs) == Inserts(pairs);
    } else {
      RunNothing(p, limit);
    }
  }

  lemma {:induction false} FlattenApplies(t: Table, order: seq<bytes>)
    requires TraversalOf(order, t) && NamedKeys(t)
    ensures Apply(EMPTY, Inserts(Flatten(order, t.vals))) == WithoutEmpty(t, order)
  {
    ApplyFlatten(EMPTY, order, t.vals);
    AddKeysIs(EMPTY, order, t.vals);
    assert [] + WithData(order, t.vals) == WithData(order, t.vals);
    assert map[] + DataOf(order, t.vals) == map k | k in t.vals && t.vals[k] != [] :: t.vals[k];
  }

  // ---- no parse yields a longer string than the buffer may hold ----

  predicate Short(s: Option<bytes>, bound: nat) {
    s.Some? ==> |s.value| < bound
  }

  predicate ShortInserts(ins: seq<Insert>, bound: nat) {
    forall i <- ins :: Short(i.key, bound) && Short(i.val, bound)
  }

  predicate ShortState(p: Parser, bound: nat) {
    |p.field| < p.cap <= bound && Short(p.key, bound) && ShortInserts(p.out, bound)
  }

  /** As between the bytes of a field and the check for room. */
  predicate Nearly(p: Parser, bound: nat) {
    |p.field| <= p.cap <= bound && 0 < p.cap && Short(p.key, bound) && ShortInserts(p.out, bound)
  }

  lemma RoomShort(p: Parser, limit: nat, bound: nat)
    requires Nearly(p, bound) && limit <= bound
    ensures ShortState(Room(p, limit), bound)
  {
  }

  lemma PlainShort(p: Parser, b: byte, limit: nat, bound: nat)
    requires ShortState(p, bound) && limit <= bound
    ensures ShortState(StepPlain(p, b, limit), bound)
  {
    hide Room;
    var c := if b == PLUS then SPACE else b;
    RoomShort(p.(field := p.field + [c]), limit, bound);
  }

  lemma StepShort(p: Parser, b: byte, limit: nat, bound: nat)
    requires ShortState(p, bound) && limit <= bound
    ensures ShortState(Step(p, b, limit), bound)
  {
    hide Room, StepPlain, ShortInserts, Short;
    if p.hex == NoHex {
      PlainShort(p, b, limit, bound);
    } else if HexVal(b).None? {
      var digit := if p.hex.Hex1? && |p.field| + 2 < p.cap && p.hex.lch != 0 then [p.hex.lch] else [];
      RoomShort(p.(hex := NoHex, field := p.field + [PERCENT] + digit), limit, bound);
      PlainShort(Literal(p, limit), b, limit, bound);
    } else if p.hex.Hex1? {
      var h := 16 * p.hex.h + HexVal(b).value;
      RoomShort(p.(hex := NoHex, field := p.field + [if h < 256 then h else 0]), limit, bound);
    }
  }

  lemma {:induction false} RunShort(p: Parser, s: bytes, limit: nat, bound: nat)
    requires ShortState(p, bound) && limit <= bound
    ensures ShortState(Run(p, s, limit), bound)
    decreases |s|
  {
    hide Step, ShortState;
    if s != [] {
      StepShort(p, s[0], limit, bound);
      RunShort(Step(p, s[0], limit), s[1..], limit, bound);
    }
  }

  lemma {:induction false} OutcomeShort(p: Parser, chunks: seq<bytes>, limit: nat, bound: nat)
    requires |chunks| > 0 && ShortState(p, bound) && limit <= bound
    ensures ShortInserts(Outcome(p, chunks, limit), bound)
    decreases |chunks|
  {
    RunShort(p, chunks[0], limit, bound);
    if |chunks| > 1 {
      OutcomeShort(Run(p, chunks[0], limit), chunks[1..], limit, bound);
    }
  }

  lemma {:induction false} ApplyShort(t: Table, ins: seq<Insert>, bound: nat)
    requires Storable(t, bound) && ShortInserts(ins, bound)
    ensures Storable(Apply(t, ins), bound)
    decreases |ins|
  {
    if ins != [] {
      ApplyShort(t, ins[..|ins| - 1], bound);
    }
  }

  /** Parsing the encoding of a table gives back every key that has data with exactly its values, whatever order the
      keys were written in and wherever the text was cut, if and only if none of these keys and values reaches the
      size that the buffer has or may grow to. */
  lemma FormRoundTrip(t: Table, order: seq<bytes>, chunks: seq<bytes>, cap: nat, limit: nat)
    requires TraversalOf(order, t) && NamedKeys(t) && cap > 0
    requires |chunks| > 0 && Concat(chunks) == Join(Flatten(order, t.vals))
    ensures Apply(EMPTY, Outcome(Init(cap), chunks, limit)) == WithoutEmpty(t, order) <==> Storable(t, Max(cap, limit))
  {
    hide *;
    if Storable(t, Max(cap, limit)) {
      FormComesBack(t, order, chunks, cap, limit);
    } else {
      FormIsCut(t, order, chunks, cap, limit);
    }
  }

  lemma FormComesBack(t: Table, order: seq<bytes>, chunks: seq<bytes>, cap: nat, limit: nat)
    requires TraversalOf(order, t) && NamedKeys(t) && cap > 0 && Storable(t, Max(cap, limit))
    requires |chunks| > 0 && Concat(chunks) == Join(Flatten(order, t.vals))
    ensures Apply(EMPTY, Outcome(Init(cap), chunks, limit)) == WithoutEmpty(t, order)
  {
    hide Outcome, Join;
    var flat := Flatten(order, t.vals);
    FlattenFits(order, t, Max(cap, limit));
    ParseEncoding(flat, chunks, cap, limit);
    FlattenApplies(t, order);
    if flat == [] {
      EmptyKeyIgnored();
      assert Inserts(flat) == [];
    }
  }

  /** A table with a longer string never comes back, whatever the input was. */
  lemma FormIsCut(t: Table, order: seq<bytes>, chunks: seq<bytes>, cap: nat, limit: nat)
    requires TraversalOf(order, t) && cap > 0 && !Storable(t, Max(cap, limit)) && |chunks| > 0
    ensures Apply(EMPTY, Outcome(Init(cap), chunks, limit)) != WithoutEmpty(t, order)
  {
    hide Outcome, Apply;
    OutcomeShort(Init(cap), chunks, limit, Max(cap, limit));
    ApplyShort(EMPTY, Outcome(Init(cap), chunks, limit), Max(cap, limit));
    NotStorable(t, order, Max(cap, limit));
  }

  lemma NotStorable(t: Table, order: seq<bytes>, bound: nat)
    requires !Storable(t, bound) && forall k <- order :: k in t.vals
    ensures !Storable(WithoutEmpty(t, order), bound)
  {
  }

  lemma EmptyKeyIgnored()
    ensures Apply(EMPTY, [Insert(Some([]), None)]) == EMPTY
  {
    assert [Insert(Some([]), None)][..0] == [];
  }
}
