/** The resumable form parser (libahttp/cgi.C), tied to the byte machine of FormCodec. */
module FormParser {
  import opened Bytes
  import opened Abuf
  import opened FormCodec
  import FormMeaning
  import opened FormEncode
  import opened PairSpec

  /** abuf_stat_t as the form parser uses it. */
  datatype Ret = Okay | Separator | Overflow | AtEof | MustWait

  /** What the reader has where a hex digit may stand. */
  datatype Digit = IsDigit(t: nat, ch: byte) | NotDigit | NoneYet | NoMore

  /** process_parsed_key_or_val on a finished key or value. */
  function Delivered(p: Parser, ret: Ret, s: Option<bytes>): Parser
    requires ret == Okay || ret == Separator
  {
    if ret == Separator then p.(out := p.out + [Insert(s, None)])
    else if p.st == InKey then p.(st := InVal, key := s)
    else p.(st := InKey, key := None, out := p.out + [Insert(p.key, s)])
  }

  class CgiParser {
    const abuf: Abuf
    const limit: nat         // ok_cgibuf_limit, or a smaller limit set by the owner
    var scratch: array<byte>
    var pcp: nat             // parse character pointer; endp is the end of scratch
    var pstate: Var
    var inhex: bool          // inside an escape, possibly waiting
    var hexI: nat
    var hexH: nat
    var hexLch: byte
    var key: Option<bytes>
    var tab: Table
    ghost var inserts: seq<Insert>
    ghost var drops: nat     // fields lost to overflow

    ghost predicate Valid()
      reads this, abuf, abuf.src, abuf.src.ring, abuf.src.store, abuf.mirror
    {
      && abuf.Valid() && abuf.mirror == null
      && scratch != abuf.src.store
      && pcp <= scratch.Length && 0 < scratch.Length
      && HexOk()
      && tab == Apply(EMPTY, inserts)
    }

    ghost predicate HexOk()
      reads this`inhex, this`hexI, this`hexH, this`hexLch
    {
      if inhex then
        hexI <= 1 && (if hexI == 0 then hexH == 0 && hexLch == 0 else HexVal(hexLch) == Some(hexH) && hexLch != 0)
      else
        hexI == 0 && hexH == 0 && hexLch == 0
    }

    /** The machine state that the fields stand for. */
    ghost function Abs(): Parser
      requires pcp <= scratch.Length
      reads this, scratch
    {
      Parser(pstate, key, scratch[..pcp], HexState(), scratch.Length, inserts, drops)
    }

    ghost function HexState(): Hex
      reads this`inhex, this`hexI, this`hexH, this`hexLch
    {
      if !inhex then NoHex else if hexI == 0 then Hex0 else Hex1(hexH, hexLch)
    }

    constructor (a: Abuf, cap: nat, lim: nat, st: Var)
      requires a.Valid() && a.mirror == null && cap > 0
      ensures Valid() && abuf == a && limit == lim && fresh(scratch)
      ensures Abs() == Init(cap).(st := st)
    {
      abuf, limit := a, lim;
      scratch, pcp := new byte[cap], 0;
      pstate, key := st, None;
      inhex, hexI, hexH, hexLch := false, 0, 0, 0;
      tab, inserts, drops := EMPTY, [], 0;
    }

    /** Doubles the scratch buffer up to the limit. */
    method ExtendScratch() returns (ok: bool)
      requires Valid() && pcp == scratch.Length
      modifies this`scratch
      ensures Valid()
      ensures ok == (old(scratch.Length) < limit)
      ensures !ok ==> scratch == old(scratch)
      ensures ok ==> fresh(scratch) && scratch.Length == Min(2 * old(scratch.Length), limit)
      ensures ok ==> scratch[..pcp] == old(scratch[..pcp])
    {
      hide Abuf.Valid, Apply;
      if scratch.Length >= limit {
        return false;
      }
      var newlen := scratch.Length * 2;
      if newlen > limit {
        newlen := limit;
      }
      var n := new byte[newlen];
      MemCpy(n, 0, scratch, 0, scratch.Length);
      assert n[..pcp] == n[0..0 + pcp] && scratch[..pcp] == scratch[0..0 + pcp];
      scratch := n;
      ok := true;
    }

    /** The check at the top of the loop: on overflow the field is dropped. */
    method MakeRoom() returns (overflow: bool)
      requires Valid() && !inhex
      modifies this`scratch, this`pcp, this`drops
      ensures Valid() && pcp < scratch.Length && drops == old(drops) + if overflow then 1 else 0
      ensures scratch == old(scratch) || fresh(scratch)
      ensures Abs() == Room(old(Abs()), limit)
      ensures overflow ==> pcp == 0 && old(pcp == scratch.Length)
      ensures overflow <==> old(pcp == scratch.Length && scratch.Length >= limit)
    {
      hide Abuf.Valid, Apply;
      overflow := false;
      if pcp >= scratch.Length {
        var ok := ExtendScratch();
        if !ok {
          overflow := true;
          pcp := 0;
          drops := drops + 1;
        }
      }
    }

    /** *pcp++ = ch. */
    method PutChar(b: byte)
      requires Valid() && pcp < scratch.Length
      modifies this`pcp, scratch
      ensures Valid()
      ensures Abs() == old(Abs()).(field := old(Abs()).field + [b])
    {
      hide Abuf.Valid, Apply;
      scratch[pcp] := b;
      pcp := pcp + 1;
    }

    method LeaveHex()
      requires Valid()
      modifies this`inhex, this`hexI, this`hexH, this`hexLch
      ensures Valid() && Abs() == old(Abs()).(hex := NoHex) && !inhex
    {
      hide Abuf.Valid, Apply;
      hexI, hexH, hexLch := 0, 0, 0;
      inhex := false;
    }

    /** Reads a character and puts it back unless it is a hex digit. */
    method ReadDigit() returns (d: Digit)
      requires Valid() && abuf.Valid() && abuf.erc == Ok
      modifies abuf, abuf.src, abuf.src.ring
      ensures Valid() && abuf.Valid()
      ensures d.IsDigit? ==> HexVal(d.ch) == Some(d.t) && old(abuf.Pending()) == [d.ch] + abuf.Pending()
      ensures !d.IsDigit? ==> abuf.Pending() == old(abuf.Pending())
      ensures d.NotDigit? ==> abuf.Pending() != [] && HexVal(abuf.Pending()[0]) == None
      ensures d.NoneYet? || d.NoMore? ==> abuf.Pending() == []
      ensures d.NoneYet? ==> !abuf.src.eof && abuf.erc == Wait
      ensures d.NoMore? ==> abuf.src.eof
      ensures d.IsDigit? || d.NotDigit? ==> abuf.erc == Ok
      ensures abuf.src.ring != null ==> abuf.src.eof == old(abuf.src.eof)
    {
      hide Abuf.Valid, Abuf.Pending, Apply, Abuf.MirrorOk, HexOk;
      var ch := abuf.Get();
      if ch.WaitChar? {
        return NoneYet;
      } else if ch.EofChar? {
        return NoMore;
      }
      match HexVal(ch.b) {
        case Some(t) => d := IsDigit(t, ch.b);
        case None =>
          abuf.Unget();
          d := NotDigit;
      }
    }

    /** A complete escape puts its byte. */
    method EndEscape(h: nat)
      requires Valid() && inhex && h < 256 && pcp < scratch.Length
      modifies this`inhex, this`hexI, this`hexH, this`hexLch, this`pcp, scratch
      ensures Valid() && !inhex
      ensures Abs() == old(Abs()).(hex := NoHex, field := old(Abs()).field + [h])
    {
      PutChar(h);
      LeaveHex();
    }

    /** A broken escape puts '%' and, where two more bytes fit, the digit read. */
    method EndLiteral()
      requires Valid() && inhex && pcp < scratch.Length
      modifies this`inhex, this`hexI, this`hexH, this`hexLch, this`pcp, scratch
      ensures Valid() && !inhex
      ensures Room(Abs(), limit) == Literal(old(Abs()), limit)
    {
      hide Abuf.Valid, Apply, Room;
      ghost var p := Abs();
      assert p.hex.Hex1? <==> hexI == 1;
      PutChar(PERCENT);
      assert p.field + [PERCENT] + [] == p.field + [PERCENT];
      if pcp + 1 < scratch.Length && hexLch != 0 {
        PutChar(hexLch);
      }
      LeaveHex();
    }

    /** One turn of parse_hexchar's loop: None after the first of two digits. */
    method HexStep() returns (r: Option<Ret>)
      requires Valid() && inhex && pcp < scratch.Length && abuf.Valid() && abuf.erc == Ok
      modifies this`inhex, this`hexI, this`hexH, this`hexLch, this`pcp, scratch, abuf, abuf.src, abuf.src.ring
      ensures Valid() && abuf.Valid() && |abuf.Pending()| <= |old(abuf.Pending())|
      ensures r in {None, Some(Okay), Some(MustWait), Some(AtEof)}
      ensures r.None? ==>
        && inhex && pcp < scratch.Length && abuf.erc == Ok && old(hexI) == 0 && hexI == 1
        && Run(Abs(), abuf.Pending(), limit) == Run(old(Abs()), old(abuf.Pending()), limit)
        && (StaysInEscape(HexState(), abuf.Pending()) <==> StaysInEscape(old(HexState()), old(abuf.Pending())))
      ensures r == Some(Okay) ==>
        && !inhex && abuf.erc == Ok
        && Run(Room(Abs(), limit), abuf.Pending(), limit) == Run(old(Abs()), old(abuf.Pending()), limit)
      ensures r == Some(MustWait) || r == Some(AtEof) ==>
        && inhex && pcp < scratch.Length && abuf.Pending() == []
        && Abs() == Run(old(Abs()), old(abuf.Pending()), limit)
      ensures r.Some? ==> (r.value == Okay <==> !StaysInEscape(old(HexState()), old(abuf.Pending())))
      ensures r == Some(MustWait) ==> !abuf.src.eof && abuf.erc == Wait
      ensures r == Some(AtEof) ==> abuf.src.eof
      ensures abuf.src.ring != null ==> abuf.src.eof == old(abuf.src.eof)
    {
      hide Abuf.Valid, Abuf.Pending, Apply, Run, Room, Literal, StepPlain;
      ghost var p, s := Abs(), abuf.Pending();
      var d := ReadDigit();
      if d.NoneYet? || d.NoMore? {
        RunNothing(p, limit);
        r := Some(if d.NoneYet? then MustWait else AtEof);
      } else if d.NotDigit? {
        RunLiteral(p, s, limit);
        EndLiteral();
        r := Some(Okay);
      } else {
        RunFirst(p, d.ch, abuf.Pending(), limit);
        if hexI == 0 {
          hexI, hexH, hexLch := 1, d.t, d.ch;
          r := None;
        } else {
          EndEscape(16 * hexH + d.t);
          r := Some(Okay);
        }
      }
    }

    /** parse_hexchar: on WAIT and EOF the parser stays inside the escape. */
    method ParseHexchar() returns (ret: Ret)
      requires Valid() && inhex && pcp < scratch.Length && abuf.Valid() && abuf.erc == Ok
      modifies this`inhex, this`hexI, this`hexH, this`hexLch, this`pcp, scratch, abuf, abuf.src, abuf.src.ring
      ensures Valid() && abuf.Valid() && |abuf.Pending()| <= |old(abuf.Pending())|
      ensures ret in {Okay, MustWait, AtEof}
      ensures ret == Okay ==>
        && !inhex && abuf.erc == Ok
        && Run(Room(Abs(), limit), abuf.Pending(), limit) == Run(old(Abs()), old(abuf.Pending()), limit)
      ensures ret != Okay ==>
        && inhex && pcp < scratch.Length && abuf.Pending() == []
        && Abs() == Run(old(Abs()), old(abuf.Pending()), limit)
      ensures ret == Okay <==> !StaysInEscape(old(HexState()), old(abuf.Pending()))
      ensures ret == MustWait ==> !abuf.src.eof && abuf.erc == Wait
      ensures ret == AtEof ==> abuf.src.eof
      ensures abuf.src.ring != null ==> abuf.src.eof == old(abuf.src.eof)
    {
      hide Abuf.Valid, Abuf.Pending, Apply, Run, Room, StaysInEscape, HexState;
      var r := HexStep();
      if r.None? {
        r := HexStep();
      }
      ret := r.value;
    }

    /** The switch on one character: None to read on, Okay or Separator at the end of a field. */
    method Dispatch(b: byte) returns (r: Option<Ret>)
      requires Valid() && abuf.Valid() && !inhex && pcp < scratch.Length && b != PERCENT
      modifies this`pcp, scratch
      ensures Valid() && !inhex && abuf.Valid() && abuf.Pending() == old(abuf.Pending())
      ensures r in {None, Some(Okay), Some(Separator)}
      ensures r.None? ==> Room(Abs(), limit) == Step(old(Abs()), b, limit)
      ensures r.Some? ==>
        && pcp < scratch.Length && Abs() == old(Abs()) && pstate != NoVar && (r.value == Separator ==> pstate == InKey)
        && Delivered(Abs().(field := []), r.value, Some(scratch[..pcp])) == Step(old(Abs()), b, limit)
    {
      hide Abuf.Valid, Apply, Room;
      if b == AMP && pstate == InKey {
        return Some(Separator);
      } else if b == AMP && pstate == InVal {
        return Some(Okay);
      } else if b == EQUALS && pstate == InKey {
        return Some(Okay);
      } else if b == PLUS {
        PutChar(SPACE);
      } else {
        PutChar(b);
      }
      r := None;
    }

    method BeginHex()
      requires Valid() && !inhex
      modifies this`inhex
      ensures Valid() && inhex && Abs() == Step(old(Abs()), PERCENT, limit)
    {
      hide Abuf.Valid, Apply;
      inhex := true;
    }

    method NextChar() returns (ch: Got)
      requires Valid() && abuf.Valid() && abuf.erc == Ok
      modifies abuf, abuf.src, abuf.src.ring
      ensures Valid() && abuf.Valid()
      ensures old(abuf.Pending()) == (if ch.Ch? then [ch.b] else []) + abuf.Pending()
      ensures !ch.Ch? ==> abuf.Pending() == []
      ensures ch.WaitChar? ==> !abuf.src.eof && abuf.erc == Wait
      ensures ch.EofChar? ==> abuf.src.eof
      ensures ch.Ch? ==> abuf.erc == Ok
      ensures abuf.src.ring != null ==> abuf.src.eof == old(abuf.src.eof)
    {
      hide Abuf.Valid, Abuf.Pending, Apply, Abuf.MirrorOk, HexOk;
      ch := abuf.Get();
    }

    /** One turn of the loop. Run carries what is still to come out of the pending input. */
    method Turn() returns (r: Option<Ret>)
      requires Valid() && abuf.Valid() && !inhex && abuf.erc == Ok
      modifies this`scratch, this`pcp, this`drops, this`inhex, this`hexI, this`hexH, this`hexLch, scratch, abuf, abuf.src, abuf.src.ring
      ensures Valid() && abuf.Valid() && (scratch == old(scratch) || fresh(scratch))
      ensures drops == old(drops) + if r == Some(Overflow) then 1 else 0
      ensures r == None ==>
        && !inhex && abuf.erc == Ok && |abuf.Pending()| < |old(abuf.Pending())|
        && Run(Room(Abs(), limit), abuf.Pending(), limit) == Run(Room(old(Abs()), limit), old(abuf.Pending()), limit)
      ensures r == Some(Overflow) ==>
        && !inhex && abuf.erc == Ok && pcp == 0 && abuf.Pending() == old(abuf.Pending()) && old(pcp == scratch.Length)
        && Run(Abs(), abuf.Pending(), limit) == Run(Room(old(Abs()), limit), old(abuf.Pending()), limit)
      ensures r == Some(Okay) || r == Some(Separator) ==>
        && !inhex && abuf.erc == Ok && |abuf.Pending()| < |old(abuf.Pending())| && pcp < scratch.Length
        && pstate != NoVar && (r.value == Separator ==> pstate == InKey)
        && Run(Delivered(Abs().(field := []), r.value, Some(scratch[..pcp])), abuf.Pending(), limit)
          == Run(Room(old(Abs()), limit), old(abuf.Pending()), limit)
      ensures r == Some(MustWait) || r == Some(AtEof) ==>
        && abuf.Pending() == [] && pcp < scratch.Length
        && Abs() == Run(Room(old(Abs()), limit), old(abuf.Pending()), limit)
      ensures r == Some(MustWait) ==> !abuf.src.eof && abuf.erc == Wait
      ensures r == Some(AtEof) ==> abuf.src.eof
      ensures abuf.src.ring != null ==> abuf.src.eof == old(abuf.src.eof)
    {
      hide Valid, Abs, HexState, Abuf.Valid, Abuf.Pending, Apply, Run, Room, Step, Delivered;
      var overflow := MakeRoom();
      if overflow {
        return Some(Overflow);
      }
      ghost var p := Abs();
      var ch := NextChar();
      if ch.WaitChar? {
        RunNothing(p, limit);
        return Some(MustWait);
      } else if ch.EofChar? {
        RunNothing(p, limit);
        return Some(AtEof);
      }
      RunFirst(p, ch.b, abuf.Pending(), limit);
      if ch.b == PERCENT {
        BeginHex();
        var rc := ParseHexchar();
        r := if rc == Okay then None else Some(rc);
      } else {
        r := Dispatch(ch.b);
      }
    }

    /** What a finished call of parse_key_or_val has done; before is the state and input it started with. */
    ghost predicate Parsed(ret: Ret, r: Option<bytes>, before: Parser, input: bytes)
      requires Valid() && abuf.Valid()
      reads this, scratch, abuf, abuf.src, abuf.src.ring, abuf.src.store, abuf.mirror
    {
      var final := Run(Room(before, limit), input, limit);
      match ret
      case MustWait =>
        abuf.Pending() == [] && pcp < scratch.Length && Abs() == final && !abuf.src.eof && abuf.erc == Wait
      case AtEof =>
        && abuf.Pending() == [] && abuf.src.eof
        && r == (if StaysInEscape(before.hex, input) then None else Some(final.field))
        && pstate == final.st && key == final.key && inserts == final.out && drops == final.drops == before.drops
      case Overflow =>
        && !StaysInEscape(before.hex, input) && !inhex && abuf.erc == Ok && pcp < scratch.Length
        && Run(Abs(), abuf.Pending(), limit) == final && drops == before.drops + 1
      case _ =>
        && !StaysInEscape(before.hex, input) && !inhex && abuf.erc == Ok && pcp < scratch.Length
        && pstate != NoVar && (ret == Separator ==> pstate == InKey)
        && Run(Delivered(Abs(), ret, r), abuf.Pending(), limit) == final
    }

    ghost function Work(): nat
      requires abuf.Valid()
      reads this, abuf, abuf.src, abuf.src.ring, abuf.src.store, abuf.mirror
    {
      2 * |abuf.Pending()| + if inhex then 1 else 0
    }

    /** The loop of parse_key_or_val. */
    method Loop() returns (ret: Ret)
      requires Valid() && abuf.Valid() && !inhex && abuf.erc == Ok
      modifies this`scratch, this`pcp, this`drops, this`inhex, this`hexI, this`hexH, this`hexLch, scratch, abuf, abuf.src, abuf.src.ring
      ensures Valid() && abuf.Valid() && (scratch == old(scratch) || fresh(scratch))
      ensures pcp <= scratch.Length && (ret == Overflow ==> pcp == 0)
      ensures drops == old(drops) + if ret == Overflow then 1 else 0
      ensures ret != Overflow ==> pcp < scratch.Length
      ensures var final := Run(Room(old(Abs()), limit), old(abuf.Pending()), limit);
        match ret
        case MustWait => abuf.Pending() == [] && Abs() == final && !abuf.src.eof && abuf.erc == Wait
        case AtEof => abuf.Pending() == [] && Abs() == final && abuf.src.eof
        case Overflow => !inhex && abuf.erc == Ok && Run(Abs(), abuf.Pending(), limit) == final
        case _ =>
          && !inhex && abuf.erc == Ok
          && pstate != NoVar && (ret == Separator ==> pstate == InKey)
          && Run(Delivered(Abs().(field := []), ret, Some(scratch[..pcp])), abuf.Pending(), limit) == final
      ensures ret in {Okay, Separator} ==> |abuf.Pending()| < |old(abuf.Pending())|
      ensures ret == Overflow && |abuf.Pending()| >= |old(abuf.Pending())| ==>
        abuf.Pending() == old(abuf.Pending()) && old(pcp == scratch.Length)
      ensures abuf.src.ring != null ==> abuf.src.eof == old(abuf.src.eof)
    {
      hide Valid, Abs, HexState, Abuf.Valid, Abuf.Pending, Apply, Run, Room, Step, Delivered;
      PcpOk();
      ghost var final := Run(Room(Abs(), limit), abuf.Pending(), limit);
      while true
        invariant Valid() && abuf.Valid() && !inhex && abuf.erc == Ok && pcp <= scratch.Length
        invariant scratch == old(scratch) || fresh(scratch)
        invariant Run(Room(Abs(), limit), abuf.Pending(), limit) == final && drops == old(drops)
        invariant |abuf.Pending()| < |old(abuf.Pending())| ||
          (abuf.Pending() == old(abuf.Pending()) && pcp == old(pcp) && scratch == old(scratch))
        invariant abuf.src.ring != null ==> abuf.src.eof == old(abuf.src.eof)
        decreases |abuf.Pending()|
      {
        var r := Turn();
        PcpOk();
        if r.Some? {
          return r.value;
        }
      }
    }

    lemma PcpOk()
      requires Valid()
      ensures pcp <= scratch.Length && 0 < scratch.Length
    {
    }

    /** pcp = scratch: the next field starts. */
    method StartField()
      requires Valid()
      modifies this`pcp
      ensures Valid() && pcp == 0 && pcp < scratch.Length && Abs() == old(Abs()).(field := [])
    {
      hide Abuf.Valid, Apply;
      pcp := 0;
    }

    /** Reads on until a key or value is complete, the input ends, or more of it must be awaited. */
    method ParseKeyOrVal() returns (ret: Ret, r: Option<bytes>)
      requires Valid() && abuf.Valid() && abuf.erc == Ok && pcp < scratch.Length
      modifies this`scratch, this`pcp, this`drops, this`inhex, this`hexI, this`hexH, this`hexLch, scratch, abuf, abuf.src, abuf.src.ring
      ensures Valid() && abuf.Valid() && (scratch == old(scratch) || fresh(scratch))
      ensures Parsed(ret, r, old(Abs()), old(abuf.Pending()))
      ensures ret !in {MustWait, AtEof} ==> Work() < old(Work())
      ensures abuf.src.ring != null ==> abuf.src.eof == old(abuf.src.eof)
    {
      hide Valid, HexState, Abuf.Valid, Abuf.Pending, Apply, Run, Step, Delivered, StaysInEscape;
      r := None;
      StaysNot(abuf.Pending());
      if inhex {
        ret := ParseHexchar();
        if ret != Okay {
          return;
        }
      }
      ret := Loop();
      if ret != MustWait {
        if ret != Overflow {
          r := Some(scratch[..pcp]);
        }
        StartField();
      }
    }

    lemma StaysNot(s: bytes)
      ensures !StaysInEscape(NoHex, s)
      ensures !inhex ==> HexState() == NoHex
    {
    }

    /** The table's insert. */
    method InsertPair(k: Option<bytes>, v: Option<bytes>)
      requires Valid()
      modifies this`tab, this`inserts
      ensures Valid() && inserts == old(inserts) + [Insert(k, v)]
      ensures Abs() == old(Abs()).(out := inserts)
    {
      hide Abuf.Valid, Inserted, Apply;
      ApplySnoc(EMPTY, inserts, Insert(k, v));
      tab := Inserted(tab, k, v, true);
      inserts := inserts + [Insert(k, v)];
    }

    /** process_parsed_key_or_val. */
    method Process(rc: Ret, s: Option<bytes>)
      requires Valid() && pstate != NoVar && (rc == Separator ==> pstate == InKey)
      modifies this`tab, this`inserts, this`key, this`pstate
      ensures Valid()
      ensures rc == Okay || rc == Separator ==> Abs() == Delivered(old(Abs()), rc, s) && pstate != NoVar
      ensures rc == AtEof ==> inserts == old(inserts) + [if old(pstate) == InKey then Insert(s, None) else Insert(old(key), s)]
      ensures rc == Overflow || rc == MustWait ==> Abs() == old(Abs()) && pstate == old(pstate)
    {
      hide Abuf.Valid, Apply;
      match rc {
        case Separator =>
          InsertPair(s, None);
        case Okay =>
          if pstate == InKey {
            key := s;
          } else {
            InsertPair(key, s);
            key := None;
          }
          pstate := if pstate == InKey then InVal else InKey;
        case AtEof =>
          if pstate == InKey {
            InsertPair(s, None);
          } else {
            InsertPair(key, s);
          }
        case _ =>
      }
    }

    /** Between events: the field has room, and inside an escape only if a WAIT came there. */
    ghost predicate Ready()
      reads this, abuf, abuf.src, abuf.src.ring, abuf.src.store, abuf.mirror
    {
      Valid() && abuf.Valid() && pcp < scratch.Length && pstate != NoVar
    }

    /** Where the byte machine will be when all that is pending has been read. */
    ghost function Ahead(): Parser
      requires Ready()
      reads this, scratch, abuf, abuf.src, abuf.src.ring, abuf.src.store, abuf.mirror
    {
      Run(Abs(), abuf.Pending(), limit)
    }

    ghost predicate Stays()
      requires Ready()
      reads this, abuf, abuf.src, abuf.src.ring, abuf.src.store, abuf.mirror
    {
      StaysInEscape(HexState(), abuf.Pending())
    }

    /** parse_guts_driver: one field. */
    method ParseGutsDriver() returns (rc: Ret)
      requires Ready() && abuf.erc == Ok
      modifies this, scratch, abuf, abuf.src, abuf.src.ring
      ensures Valid() && abuf.Valid() && (scratch == old(scratch) || fresh(scratch))
      ensures rc == MustWait ==>
        && Ready() && abuf.Pending() == [] && abuf.erc == Wait && !abuf.src.eof
        && Abs() == old(Ahead())
      ensures rc == AtEof ==> abuf.src.eof && inserts == Finish(old(Ahead()), old(Stays()))
      ensures rc != MustWait && rc != AtEof ==>
        && Ready() && abuf.erc == Ok && Ahead() == old(Ahead()) && Stays() == old(Stays())
        && Work() < old(Work())
      ensures abuf.src.ring != null ==> abuf.src.eof == old(abuf.src.eof)
    {
      hide Valid, Abuf.Valid, Abuf.Pending, Apply, Run, Step, Delivered, StaysInEscape, HexState;
      var s: Option<bytes>;
      rc, s := ParseKeyOrVal();
      StaysNot(abuf.Pending());
      Process(rc, s);
    }

    /** parse_guts: it takes in all that is pending, and at EOF makes the last insert. */
    method ParseGuts() returns (ret: Ret)
      requires Ready() && abuf.erc == Ok
      modifies this, scratch, abuf, abuf.src, abuf.src.ring
      ensures Valid() && abuf.Valid() && (ret == MustWait || ret == AtEof)
      ensures scratch == old(scratch) || fresh(scratch)
      ensures ret == MustWait ==>
        && Ready() && abuf.Pending() == [] && abuf.erc == Wait && !abuf.src.eof
        && Abs() == Run(old(Abs()), old(abuf.Pending()), limit)
      ensures ret == AtEof ==>
        && abuf.src.eof
        && inserts ==
          Finish(Run(old(Abs()), old(abuf.Pending()), limit), StaysInEscape(old(HexState()), old(abuf.Pending())))
      ensures abuf.src.ring != null ==> abuf.src.eof == old(abuf.src.eof)
    {
      hide *;
      AheadIs();
      ghost var final, stays := Ahead(), Stays();
      while true
        invariant Ready() && abuf.Valid() && abuf.erc == Ok && (scratch == old(scratch) || fresh(scratch))
        invariant Ahead() == final && Stays() == stays
        invariant abuf.src.ring != null ==> abuf.src.eof == old(abuf.src.eof)
        decreases Work()
      {
        var rc := ParseGutsDriver();
        if rc == MustWait || rc == AtEof {
          return rc;
        }
      }
    }

    lemma AheadIs()
      requires Ready()
      ensures Valid() && abuf.Valid()
      ensures Ahead() == Run(Abs(), abuf.Pending(), limit) && Stays() == StaysInEscape(HexState(), abuf.Pending())
    {
    }

    /** Event: a chunk arrives while the parser waits, or before it has started. */
    method ChunkArrives(chunk: bytes) returns (ret: Ret)
      requires Ready() && Waiting() && |chunk| <= abuf.src.store.Length
      modifies this, scratch, abuf, abuf.src, abuf.src.ring, abuf.src.store
      ensures Ready() && Waiting() && ret == MustWait
      ensures scratch == old(scratch) || fresh(scratch)
      ensures Abs() == Run(old(Abs()), chunk, limit)
    {
      hide Abuf.Valid, Abuf.Pending, Apply, Run;
      abuf.WaitingIsEmpty();
      assert [] + chunk == chunk;
      abuf.Arrive(chunk);
      abuf.CanRead();
      ret := ParseGuts();
    }

    /** Event: the connection ends while the parser waits. */
    method InputEnds() returns (ret: Ret)
      requires Ready() && Waiting()
      modifies this, scratch, abuf, abuf.src, abuf.src.ring
      ensures Valid() && ret == AtEof
      ensures inserts == Finish(old(Abs()), StaysInEscape(old(HexState()), []))
    {
      hide Abuf.Valid, Apply, Run, StaysInEscape;
      abuf.Close();
      abuf.CanRead();
      RunNothing(Abs(), limit);
      assert abuf.Pending() == [];
      ret := ParseGuts();
    }

    /** On a live connection with nothing left over. */
    ghost predicate Waiting()
      requires Ready()
      reads this, abuf, abuf.src, abuf.src.ring, abuf.src.store, abuf.mirror
    {
      abuf.src.ring != null && !abuf.src.eof && abuf.erc == Wait && abuf.Pending() == []
    }

    /** The event loop over a whole form: the table is that of the byte machine's inserts, and so,
        by ConnectionChunksIrrelevant, the same for every way of cutting the text. */
    method ParseConnection(chunks: seq<bytes>)
      requires Ready() && Waiting() && Abs() == Init(scratch.Length)
      requires forall c <- chunks :: |c| <= abuf.src.store.Length
      modifies this, scratch, abuf, abuf.src, abuf.src.ring, abuf.src.store
      ensures Valid()
      ensures inserts == Outcome(Init(old(scratch.Length)), chunks + [[]], limit)
      ensures tab == Apply(EMPTY, inserts)
      ensures
        && !FormMeaning.EndsInEscape(Concat(chunks))
        && FormMeaning.HoldsAll(Concat(chunks), old(scratch.Length), limit)
        ==> inserts == FormMeaning.Pairs(Concat(chunks))
    {
      if !FormMeaning.EndsInEscape(Concat(chunks)) && FormMeaning.HoldsAll(Concat(chunks), scratch.Length, limit) {
        ConnectionMeans(chunks, scratch.Length, limit);
      }
      ParseChunks(chunks);
    }

    method ParseChunks(chunks: seq<bytes>)
      requires Ready() && Waiting() && Abs() == Init(scratch.Length)
      requires forall c <- chunks :: |c| <= abuf.src.store.Length
      modifies this, scratch, abuf, abuf.src, abuf.src.ring, abuf.src.store
      ensures Valid()
      ensures inserts == Outcome(Init(old(scratch.Length)), chunks + [[]], limit)
      ensures tab == Apply(EMPTY, inserts)
    {
      ghost var p := Abs();
      assert chunks[..0] == [] && Run(p, Concat([]), limit) == p;
      hide Valid, Abuf.Valid, Abuf.Pending, Apply, Run, Concat, Outcome, HexState;
      for i := 0 to |chunks|
        invariant Ready() && Waiting()
        invariant scratch == old(scratch) || fresh(scratch)
        invariant Abs() == Run(p, Concat(chunks[..i]), limit)
      {
        ConcatSnoc(chunks, i);
        RunConcat(p, Concat(chunks[..i]), chunks[i], limit);
        var _ := ChunkArrives(chunks[i]);
      }
      assert chunks[..|chunks|] == chunks;
      LastEmpty(p, chunks, limit);
      var _ := InputEnds();
      TabIs();
    }

    lemma TabIs()
      requires Valid()
      ensures tab == Apply(EMPTY, inserts)
    {
    }
  }

  lemma LastEmpty(p: Parser, chunks: seq<bytes>, limit: nat)
    ensures var q := Run(p, Concat(chunks), limit);
      Outcome(p, chunks + [[]], limit) == Finish(q, StaysInEscape(q.hex, []))
  {
    var q := Run(p, Concat(chunks), limit);
    OutcomeByLast(p, chunks + [[]], limit);
    assert (chunks + [[]])[..|chunks|] == chunks;
    RunNothing(q, limit);
  }

  lemma OneChunkMeans(s: bytes, cap: nat, limit: nat)
    requires cap > 0
    ensures FormMeaning.HoldsAll(FormMeaning.Trimmed(s), cap, limit) ==>
      Outcome(Init(cap), [s], limit) == FormMeaning.Pairs(FormMeaning.Trimmed(s))
  {
    hide FormMeaning.HoldsAll, FormMeaning.Pairs, FormMeaning.Trimmed, Outcome;
    var rest: seq<bytes> := [s][1..];
    assert rest == [] && s + [] == s;
    if FormMeaning.HoldsAll(FormMeaning.Trimmed(s), cap, limit) {
      FormMeaning.ParsesPairs([s], cap, limit);
    }
  }

  /** On a connection, where the end of input comes on its own. */
  lemma ConnectionMeans(chunks: seq<bytes>, cap: nat, limit: nat)
    requires cap > 0 && !FormMeaning.EndsInEscape(Concat(chunks)) && FormMeaning.HoldsAll(Concat(chunks), cap, limit)
    ensures Outcome(Init(cap), chunks + [[]], limit) == FormMeaning.Pairs(Concat(chunks))
  {
    hide FormMeaning.HoldsAll, FormMeaning.Pairs, Outcome;
    var s := Concat(chunks);
    ConcatSnoc(chunks + [[]], |chunks|);
    assert (chunks + [[]])[..|chunks| + 1] == chunks + [[]] && (chunks + [[]])[..|chunks|] == chunks;
    assert s + [] == s;
    FormMeaning.EscapeIs(s, 0);
    FormMeaning.TrimmedTail(s);
    assert FormMeaning.Trimmed(s) == s;
    FormMeaning.ParsesPairs(chunks + [[]], cap, limit);
  }

  /** cgi_t::str_parse: the whole text in one piece, EOF right behind it. */
  method StrParse(s: bytes, cap: nat, limit: nat) returns (tab: Table)
    requires cap > 0
    ensures tab == Apply(EMPTY, Outcome(Init(cap), [s], limit))
    ensures FormMeaning.HoldsAll(FormMeaning.Trimmed(s), cap, limit) ==>
      tab == Apply(EMPTY, FormMeaning.Pairs(FormMeaning.Trimmed(s)))
  {
    hide Abuf.Valid, Abuf.Pending, Apply, Run, FormMeaning.HoldsAll, FormMeaning.Pairs, FormMeaning.Trimmed;
    OneChunkMeans(s, cap, limit);
    var src := new AbufSrc.Text(s);
    var a := new Abuf(src);
    var p := new CgiParser(a, cap, limit, InKey);
    var ret := p.ParseGuts();
    if ret == MustWait {
      a.TextNeverWaits();
      assert false;
    }
    p.TabIs();
    tab := p.tab;
  }

  /** cgi_decode: one field in which separators are ordinary; NULL when it overflows the buffer. */
  method CgiDecode(s: bytes, cap: nat, limit: nat) returns (r: Option<bytes>)
    requires cap > 0
    ensures var final := Run(Init(cap).(st := NoVar), s, limit);
      r == if final.drops == 0 then Some(final.field) else None
    ensures FormMeaning.Holds(FormMeaning.Trimmed(s), cap, limit) ==> r == Some(FormMeaning.Text(FormMeaning.Trimmed(s)))
  {
    hide Abuf.Valid, Abuf.Pending, Apply, Run, FormMeaning.Holds, FormMeaning.Text, FormMeaning.Trimmed;
    if FormMeaning.Holds(FormMeaning.Trimmed(s), cap, limit) {
      FormMeaning.DecodesText(s, cap, limit);
    }
    var src := new AbufSrc.Text(s);
    var a := new Abuf(src);
    var p := new CgiParser(a, cap, limit, NoVar);
    var ret, v := p.ParseKeyOrVal();
    if ret == MustWait {
      a.TextNeverWaits();
      assert false;
    }
    if ret == Overflow {
      DropsGrow(p.Abs(), a.Pending(), limit);
    }
    r := if ret == AtEof then v else None;
  }

  /** Decoding what the encoder wrote gives the text back if and only if it is shorter than the buffer is or may
      grow, and NULL otherwise. */
  method EncodeThenDecode(s: bytes, cap: nat, limit: nat) returns (r: Option<bytes>)
    requires cap > 0
    ensures r == if |s| < limit || |s| < cap then Some(s) else None
  {
    var e, _ := CgiEncode(s, true, None, cap);
    CgiRoundTrip(s, cap, limit);
    r := CgiDecode(e, cap, limit);
  }

  /** The whole table there and back: every key that has data, with exactly its values in their order, if and only if
      none of them reaches the size that the buffer has or may grow to. */
  method EncodeThenParse(t: Table, order: seq<bytes>, cap: nat, limit: nat) returns (tab: Table)
    requires TraversalOf(order, t) && NamedKeys(t) && cap > 0
    ensures tab == WithoutEmpty(t, order) <==> Storable(t, Max(cap, limit))
  {
    hide Outcome, Apply, Join, Flatten;
    var text := EncodeTable(order, t.vals, cap);
    assert Concat([text]) == text by {
      var rest: seq<bytes> := [text][1..];
      assert rest == [] && text + [] == text;
    }
    FormRoundTrip(t, order, [text], cap, limit);
    tab := StrParse(text, cap, limit);
  }
}
