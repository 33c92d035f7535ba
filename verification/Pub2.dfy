/** The lexer, grammar and printer of the pub1 upgrade script (contrib/pub2-upgrade.py). */
module Pub2 {
  import opened Bytes

  datatype Kind = LBP | RBP | LBLB | RBRB | LB | RB | CODE

  datatype Tok = Tok(kind: Kind, text: string)

  datatype Mode = Initial | Pub

  // ---- lexer ----

  predicate StartsWith(text: string, p: string) {
    |p| <= |text| && text[..|p|] == p
  }

  /** The length of the longest prefix without a character of stop. */
  function Run(text: string, stop: set<char>): (n: nat)
    ensures n <= |text| && (forall i :: 0 <= i < n ==> text[i] !in stop) && (n < |text| ==> text[n] in stop)
  {
    if |text| == 0 || text[0] in stop then 0 else 1 + Run(text[1..], stop)
  }

  /** The characters at which a run of code ends. */
  function Stops(mode: Mode): set<char> {
    if mode.Initial? then {'{', '}'} else {'{', '}', '%'}
  }

  /** The first rule of the mode that matches, in the order ply tries them: the two-character delimiters of the mode,
      else as much code as there is before a character that stops it, else that one character. */
  function NextTok(mode: Mode, text: string): (t: Tok)
    requires |text| > 0
    ensures 0 < |t.text| <= |text| && text[..|t.text|] == t.text
    ensures t.kind.LBP? <==> mode.Initial? && StartsWith(text, "{%")
    ensures t.kind.RBRB? <==> mode.Initial? && StartsWith(text, "}}")
    ensures t.kind.RBP? <==> mode.Pub? && StartsWith(text, "%}")
    ensures t.kind.LBLB? <==> mode.Pub? && StartsWith(text, "{{")
    ensures Spelled(t)
    ensures t.kind.LB? ==> mode.Pub? && text[0] == '{' && |t.text| == 1
    ensures t.kind.RB? ==> mode.Pub? && text[0] == '}' && |t.text| == 1
    ensures forall c :: c in Stops(mode) <==> c == '{' || c == '}' || (mode.Pub? && c == '%')
    ensures t.kind.CODE? && text[0] in Stops(mode) ==> |t.text| == 1 && (mode.Pub? ==> text[0] == '%')
    ensures t.kind.CODE? && text[0] !in Stops(mode) ==>
      && (forall i :: 0 <= i < |t.text| ==> t.text[i] !in Stops(mode))
      && (|t.text| < |text| ==> text[|t.text|] in Stops(mode))
    ensures text[0] !in Stops(mode) ==> t.kind.CODE?
  {
    match mode
    case Initial =>
      if StartsWith(text, "{%") then Tok(LBP, "{%")
      else if StartsWith(text, "}}") then Tok(RBRB, "}}")
      else
        var n := Run(text, Stops(mode));
        Tok(CODE, text[..if n > 0 then n else 1])
    case Pub =>
      if StartsWith(text, "%}") then Tok(RBP, "%}")
      else if StartsWith(text, "{{") then Tok(LBLB, "{{")
      else
        var n := Run(text, Stops(mode));
        if n > 0 then Tok(CODE, text[..n])
        else if text[0] == '%' then Tok(CODE, "%")
        else if text[0] == '}' then Tok(RB, "}")
        else Tok(LB, "{")
  }

  datatype Modes = Modes(mode: Mode, below: seq<Mode>)

  const START := Modes(Initial, [])

  /** What a token does to the mode stack; popping the last mode is an error. */
  function After(m: Modes, k: Kind): Option<Modes> {
    match k
    case LBP => Some(Modes(Pub, m.below + [m.mode]))
    case LBLB => Some(Modes(Initial, m.below + [m.mode]))
    case RBP => if |m.below| == 0 then None else Some(Modes(m.below[|m.below| - 1], m.below[..|m.below| - 1]))
    case RBRB => if |m.below| == 0 then None else Some(Modes(m.below[|m.below| - 1], m.below[..|m.below| - 1]))
    case _ => Some(m)
  }

  /** All tokens of a text; None is the error of an unmatched close in the outermost mode. */
  function Lex(m: Modes, text: string): Option<seq<Tok>>
    decreases |text|
  {
    if |text| == 0 then Some([])
    else
      var t := NextTok(m.mode, text);
      match After(m, t.kind)
      case None => None
      case Some(m') => Prepend([t], Lex(m', text[|t.text|..]))
  }

  function Prepend(a: seq<Tok>, b: Option<seq<Tok>>): Option<seq<Tok>> {
    if b.None? then None else Some(a + b.value)
  }

  lemma PrependNothing(b: Option<seq<Tok>>)
    ensures Prepend([], b) == b
  {
    if b.Some? {
      assert [] + b.value == b.value;
    }
  }

  lemma PrependTwice(a: seq<Tok>, b: seq<Tok>, c: Option<seq<Tok>>)
    ensures Prepend(a, Prepend(b, c)) == Prepend(a + b, c)
  {
    if c.Some? {
      assert a + (b + c.value) == (a + b) + c.value;
    }
  }

  function AfterAll(m: Modes, ts: seq<Tok>): Option<Modes>
    decreases |ts|
  {
    if |ts| == 0 then Some(m)
    else
      match After(m, ts[0].kind)
      case None => None
      case Some(m') => AfterAll(m', ts[1..])
  }

  function Texts(ts: seq<Tok>): string {
    if |ts| == 0 then "" else ts[0].text + Texts(ts[1..])
  }

  lemma {:induction false} TextsConcat(a: seq<Tok>, b: seq<Tok>)
    ensures Texts(a + b) == Texts(a) + Texts(b)
  {
    if |a| == 0 {
      assert a + b == b;
    } else {
      assert (a + b)[1..] == a[1..] + b;
      TextsConcat(a[1..], b);
    }
  }

  /** The spelling of every token but CODE is fixed. */
  predicate Spelled(t: Tok) {
    match t.kind
    case LBP => t.text == "{%"
    case RBP => t.text == "%}"
    case LBLB => t.text == "{{"
    case RBRB => t.text == "}}"
    case LB => t.text == "{"
    case RB => t.text == "}"
    case CODE => true
  }

  lemma {:induction false} LexIsLossless(m: Modes, text: string)
    ensures Lex(m, text).Some? ==>
      && Texts(Lex(m, text).value) == text
      && AfterAll(m, Lex(m, text).value).Some?
      && forall t :: t in Lex(m, text).value ==> Spelled(t)
    decreases |text|
  {
    if |text| > 0 && Lex(m, text).Some? {
      var t := NextTok(m.mode, text);
      var rest := text[|t.text|..];
      LexIsLossless(After(m, t.kind).value, rest);
      assert text == t.text + rest;
      assert Lex(m, text).value[1..] == Lex(After(m, t.kind).value, rest).value;
    }
  }

  // ---- trees ----

  /** Code and the blocks; the tree of a file is a block with empty delimiters. */
  datatype Node =
    | Code(v: seq<string>)
    | Block(els: seq<Node>, open: Tok, close: Tok)

  predicate Opens(k: Kind) {
    k.LBP? || k.LBLB? || k.LB?
  }

  function Closer(k: Kind): Kind {
    match k
    case LBP => RBP
    case LBLB => RBRB
    case _ => RB
  }

  /** str of a node, and of a list of nodes joined. */
  function Str(n: Node): string
    decreases n
  {
    match n
    case Code(v) => Join(v)
    case Block(els, open, close) => open.text + StrAll(els) + close.text
  }

  function StrAll(els: seq<Node>): string
    decreases els
  {
    if |els| == 0 then "" else Str(els[0]) + StrAll(els[1..])
  }

  function Join(v: seq<string>): string {
    if |v| == 0 then "" else v[0] + Join(v[1..])
  }

  /** The tokens a node stands for. */
  function Yield(n: Node): seq<Tok>
    decreases n
  {
    match n
    case Code(v) => CodeToks(v)
    case Block(els, open, close) => [open] + YieldAll(els) + [close]
  }

  function YieldAll(els: seq<Node>): seq<Tok>
    decreases els
  {
    if |els| == 0 then [] else Yield(els[0]) + YieldAll(els[1..])
  }

  function CodeToks(v: seq<string>): (r: seq<Tok>)
    ensures |r| == |v|
  {
    seq(|v|, i requires 0 <= i < |v| => Tok(CODE, v[i]))
  }

  /** What block_inner derives: code, then any number of a block and code. */
  predicate Inner(els: seq<Node>)
    decreases els
  {
    && |els| > 0 && els[0].Code?
    && (|els| > 1 ==>
         && els[1].Block? && Opens(els[1].open.kind) && els[1].close.kind == Closer(els[1].open.kind)
         && Inner(els[1].els) && Inner(els[2..]))
  }

  // ---- parser ----

  /** code: as many CODE tokens as there are. */
  function CodeLen(ts: seq<Tok>): (n: nat)
    ensures n <= |ts| && (forall i :: 0 <= i < n ==> ts[i].kind.CODE?) && (n < |ts| ==> !ts[n].kind.CODE?)
  {
    if |ts| == 0 || !ts[0].kind.CODE? then 0 else 1 + CodeLen(ts[1..])
  }

  function TakeCode(ts: seq<Tok>): Node {
    var n := CodeLen(ts);
    Code(seq(n, i requires 0 <= i < n => ts[i].text))
  }

  datatype Parsed = Parsed(els: seq<Node>, rest: seq<Tok>)

  /** block_inner from the front of ts, as far as it goes; None is a syntax error. */
  function ParseInner(ts: seq<Tok>): (r: Option<Parsed>)
    ensures r.Some? ==> |r.value.rest| <= |ts|
    decreases |ts|
  {
    var n := CodeLen(ts);
    if n == |ts| || !Opens(ts[n].kind) then Some(Parsed([TakeCode(ts)], ts[n..]))
    else
      match ParseInner(ts[n + 1..])
      case None => None
      case Some(body) =>
        if |body.rest| == 0 || body.rest[0].kind != Closer(ts[n].kind) then None
        else
          match ParseInner(body.rest[1..])
          case None => None
          case Some(more) =>
            Some(Parsed([TakeCode(ts), Block(body.els, ts[n], body.rest[0])] + more.els, more.rest))
  }

  function ParseFile(ts: seq<Tok>): Option<seq<Node>> {
    match ParseInner(ts)
    case None => None
    case Some(p) => if |p.rest| == 0 then Some(p.els) else None
  }

  /** Code, a block and what follows, as tokens. */
  lemma YieldThree(c: Node, b: Node, more: seq<Node>)
    requires c.Code? && b.Block?
    ensures YieldAll([c, b] + more) == CodeToks(c.v) + ([b.open] + (YieldAll(b.els) + ([b.close] + YieldAll(more))))
  {
    var els := [c, b] + more;
    assert els[1..][0] == b && els[1..][1..] == more;
    assert YieldAll(els) == Yield(c) + (Yield(b) + YieldAll(more));
  }

  lemma YieldCode(c: Node)
    requires c.Code?
    ensures YieldAll([c]) == CodeToks(c.v)
  {
    assert YieldAll([c][1..]) == [];
  }

  /** What the parser builds stands for just the tokens it took, and is of the form the grammar derives. */
  lemma {:induction false} ParseSound(ts: seq<Tok>)
    requires ParseInner(ts).Some?
    ensures Inner(ParseInner(ts).value.els)
    ensures YieldAll(ParseInner(ts).value.els) + ParseInner(ts).value.rest == ts
    decreases |ts|
  {
    hide YieldAll, Closer;
    var n := CodeLen(ts);
    var p := ParseInner(ts).value;
    var c := TakeCode(ts);
    assert CodeToks(c.v) == ts[..n] by { hide Inner, ParseInner, Opens; }
    if n == |ts| || !Opens(ts[n].kind) {
      YieldCode(c);
    } else {
      ParseSound(ts[n + 1..]);
      var body := ParseInner(ts[n + 1..]).value;
      ParseSound(body.rest[1..]);
      var more := ParseInner(body.rest[1..]).value;
      var b := Block(body.els, ts[n], body.rest[0]);
      YieldThree(c, b, more.els);
      assert p.els[2..] == more.els;
      Reassemble(ts, n, YieldAll(body.els), body.rest, YieldAll(more.els), more.rest);
    }
  }

  lemma Reassemble(ts: seq<Tok>, n: nat, body: seq<Tok>, bodyRest: seq<Tok>, more: seq<Tok>, rest: seq<Tok>)
    requires n < |ts| && body + bodyRest == ts[n + 1..] && |bodyRest| > 0 && more + rest == bodyRest[1..]
    ensures ts[..n] + ([ts[n]] + (body + ([bodyRest[0]] + more))) + rest == ts
  {
    assert bodyRest == [bodyRest[0]] + (more + rest);
    assert ts == ts[..n] + ([ts[n]] + ts[n + 1..]);
    assert body + ([bodyRest[0]] + (more + rest)) == body + ([bodyRest[0]] + more) + rest;
  }

  /** And it finds every such tree, in front of anything that does not go on with code or a block. */
  lemma {:induction false} ParseComplete(els: seq<Node>, rest: seq<Tok>)
    requires Inner(els) && (|rest| > 0 ==> !rest[0].kind.CODE? && !Opens(rest[0].kind))
    ensures ParseInner(YieldAll(els) + rest) == Some(Parsed(els, rest))
    decreases els
  {
    hide YieldAll;
    var c := els[0];
    if |els| == 1 {
      assert els == [c];
      YieldCode(c);
      CodeFirst(c.v, rest);
    } else {
      var b, more := els[1], els[2..];
      var tail := YieldAll(more) + rest;
      var inside := YieldAll(b.els) + ([b.close] + tail);
      assert els == [c, b] + more;
      YieldThree(c, b, more);
      var ts := YieldAll(els) + rest;
      assert ts == CodeToks(c.v) + ([b.open] + inside) by {
        Regroup(CodeToks(c.v), b.open, YieldAll(b.els), b.close, YieldAll(more), rest);
      }
      ParseComplete(b.els, [b.close] + tail);
      ParseComplete(more, rest);
      ParseBlock(ts, c.v, b.open, inside, Parsed(b.els, [b.close] + tail), tail, Parsed(more, rest));
    }
  }

  lemma Regroup(code: seq<Tok>, open: Tok, body: seq<Tok>, close: Tok, more: seq<Tok>, rest: seq<Tok>)
    ensures code + ([open] + (body + ([close] + more))) + rest == code + ([open] + (body + ([close] + (more + rest))))
  {
    assert [open] + (body + ([close] + more)) + rest == [open] + (body + ([close] + (more + rest)));
  }

  /** One round of the parser. */
  lemma ParseBlock(ts: seq<Tok>, v: seq<string>, open: Tok, inside: seq<Tok>, body: Parsed, tail: seq<Tok>, more: Parsed)
    requires ts == CodeToks(v) + ([open] + inside) && Opens(open.kind) && ParseInner(inside) == Some(body)
    requires |body.rest| > 0 && body.rest[0].kind == Closer(open.kind) && body.rest[1..] == tail
    requires ParseInner(tail) == Some(more)
    ensures ParseInner(ts) == Some(Parsed([Code(v), Block(body.els, open, body.rest[0])] + more.els, more.rest))
  {
    CodeFirst(v, [open] + inside);
    assert ts[|v|..] == [open] + inside;
    assert ts[|v|] == ts[|v|..][0] == open;
    assert ts[|v| + 1..] == ts[|v|..][1..] == inside;
  }

  lemma {:induction false} CodeFirst(v: seq<string>, rest: seq<Tok>)
    requires |rest| > 0 ==> !rest[0].kind.CODE?
    ensures CodeLen(CodeToks(v) + rest) == |v| && TakeCode(CodeToks(v) + rest) == Code(v)
    ensures (CodeToks(v) + rest)[|v|..] == rest
  {
    var ts := CodeToks(v) + rest;
    assert forall i :: 0 <= i < |v| ==> ts[i] == Tok(CODE, v[i]);
    assert |v| < |ts| ==> ts[|v|] == rest[0];
    assert TakeCode(ts).v == v;
  }

  // ---- modes ----

  predicate Opens2(k: Kind) {
    k.LBP? || k.LBLB?
  }

  predicate Closes2(k: Kind) {
    k.RBP? || k.RBRB?
  }

  /** Counting back over ts, the last two-character delimiter that opens and is not closed, when skip closing ones
      have been met behind ts. */
  function Unclosed(ts: seq<Tok>, skip: nat): Option<Kind> {
    if |ts| == 0 then None
    else
      var k := ts[|ts| - 1].kind;
      var front := ts[..|ts| - 1];
      if Closes2(k) then Unclosed(front, skip + 1)
      else if Opens2(k) then (if skip == 0 then Some(k) else Unclosed(front, skip - 1))
      else Unclosed(front, skip)
  }

  /** The mode inside a delimiter: pub code inside "{%", HTML inside "{{" and outside all. */
  function ModeInside(open: Option<Kind>): Mode {
    if open == Some(LBP) then Pub else Initial
  }

  lemma AfterSnoc(m: Modes, ts: seq<Tok>, t: Tok)
    ensures AfterAll(m, ts + [t]) == if AfterAll(m, ts).Some? then After(AfterAll(m, ts).value, t.kind) else None
  {
    AfterConcat(m, ts, [t]);
    if AfterAll(m, ts).Some? {
      assert [t][1..] == [];
    }
  }

  lemma {:induction false} ModesByDelimiters(ts: seq<Tok>, skip: nat)
    requires AfterAll(START, ts).Some?
    ensures var m := AfterAll(START, ts).value;
      && (skip == 0 ==> m.mode == ModeInside(Unclosed(ts, 0)))
      && (0 < skip <= |m.below| ==> m.below[|m.below| - skip] == ModeInside(Unclosed(ts, skip)))
    decreases |ts|
  {
    if |ts| > 0 {
      var front, t := ts[..|ts| - 1], ts[|ts| - 1];
      assert ts == front + [t];
      AfterSnoc(START, front, t);
      if Closes2(t.kind) {
        ModesByDelimiters(front, skip + 1);
      } else if Opens2(t.kind) {
        if skip > 0 {
          ModesByDelimiters(front, skip - 1);
        }
      } else {
        ModesByDelimiters(front, skip);
      }
    }
  }

  /** After any tokens the lexer is in pub mode exactly if the innermost open delimiter is "{%", and in HTML mode if it
      is "{{" or there is none. */
  lemma ModeIs(ts: seq<Tok>)
    requires AfterAll(START, ts).Some?
    ensures AfterAll(START, ts).value.mode == Pub <==> Unclosed(ts, 0) == Some(LBP)
    ensures AfterAll(START, ts).value.mode == Initial <==> Unclosed(ts, 0) == Some(LBLB) || Unclosed(ts, 0) == None
  {
    ModesByDelimiters(ts, 0);
    UnclosedOpens(ts, 0);
  }

  lemma {:induction false} UnclosedOpens(ts: seq<Tok>, skip: nat)
    ensures Unclosed(ts, skip).Some? ==> Opens2(Unclosed(ts, skip).value)
    decreases |ts|
  {
    if |ts| > 0 {
      var front, k := ts[..|ts| - 1], ts[|ts| - 1].kind;
      UnclosedOpens(front, if Closes2(k) then skip + 1 else if Opens2(k) && skip > 0 then skip - 1 else skip);
    }
  }

  // ---- which texts are accepted ----

  /** Text that holds no delimiter of any mode. */
  predicate Quiet(c: string) {
    forall i :: 0 <= i < |c| ==> c[i] != '{' && c[i] != '}' && c[i] != '%'
  }

  function CodeOf(c: string): seq<Tok> {
    if c == "" then [] else [Tok(CODE, c)]
  }

  function CodeNode(c: string): Node {
    Code(if c == "" then [] else [c])
  }

  lemma RunTo(c: string, rest: string, stop: set<char>)
    requires forall i :: 0 <= i < |c| ==> c[i] !in stop
    requires rest == "" || rest[0] in stop
    ensures Run(c + rest, stop) == |c|
  {
    var text := c + rest;
    assert forall i :: 0 <= i < |c| ==> text[i] == c[i];
    assert rest != "" ==> text[|c|] == rest[0];
  }

  /** Quiet text in front of something that stops it, or of the end, is one token of code, or none. */
  lemma LexCode(m: Modes, c: string, rest: string)
    requires Quiet(c) && (rest == "" || rest[0] == '{' || (m.mode.Pub? && rest[0] == '%') || rest[0] == '}')
    ensures Lex(m, c + rest) == Prepend(CodeOf(c), Lex(m, rest))
  {
    if c == "" {
      assert c + rest == rest;
      PrependNothing(Lex(m, rest));
    } else {
      var text := c + rest;
      RunTo(c, rest, Stops(m.mode));
      assert text[0] == c[0] && text[..|c|] == c && text[|c|..] == rest;
      assert !StartsWith(text, "{%") && !StartsWith(text, "}}") && !StartsWith(text, "%}") && !StartsWith(text, "{{") by {
        assert |text| >= 2 ==> text[..2][0] == c[0];
      }
      assert NextTok(m.mode, text) == Tok(CODE, c);
    }
  }

  /** A two-character delimiter. */
  lemma LexDelimiter(m: Modes, d: string, k: Kind, rest: string)
    requires (m.mode.Initial? && ((d == "{%" && k == LBP) || (d == "}}" && k == RBRB)))
      || (m.mode.Pub? && ((d == "%}" && k == RBP) || (d == "{{" && k == LBLB)))
    requires After(m, k).Some?
    ensures Lex(m, d + rest) == Prepend([Tok(k, d)], Lex(After(m, k).value, rest))
  {
    var text := d + rest;
    assert text[..2] == d && text[2..] == rest && |d| == 2;
    assert NextTok(m.mode, text) == Tok(k, d);
  }

  lemma LexPubSection(a: string, c: string, b: string)
    requires Quiet(a) && Quiet(c) && Quiet(b)
    ensures Lex(START, a + ("{%" + (c + ("%}" + b)))) ==
      Some(CodeOf(a) + ([Tok(LBP, "{%")] + (CodeOf(c) + ([Tok(RBP, "%}")] + CodeOf(b)))))
  {
    hide CodeOf;
    var inside := After(START, LBP).value;
    LexCode(START, a, "{%" + (c + ("%}" + b)));
    LexDelimiter(START, "{%", LBP, c + ("%}" + b));
    LexCode(inside, c, "%}" + b);
    assert After(inside, RBP) == Some(START) by { assert [Initial][..0] == []; }
    LexDelimiter(inside, "%}", RBP, b);
    LexCode(START, b, "");
    assert b + "" == b && CodeOf(b) + [] == CodeOf(b);
  }

  /** A pub section in a page: the mode changes inside, and the tree has one block with the code. */
  lemma PubSectionAccepted(a: string, c: string, b: string)
    requires Quiet(a) && Quiet(c) && Quiet(b)
    ensures
      var text := a + ("{%" + (c + ("%}" + b)));
      var block := Block([CodeNode(c)], Tok(LBP, "{%"), Tok(RBP, "%}"));
      && Lex(START, text).Some?
      && ParseFile(Lex(START, text).value) == Some([CodeNode(a), block, CodeNode(b)])
  {
    hide Lex, After;
    LexPubSection(a, c, b);
    var ts := CodeOf(a) + ([Tok(LBP, "{%")] + (CodeOf(c) + ([Tok(RBP, "%}")] + CodeOf(b))));
    var block := Block([CodeNode(c)], Tok(LBP, "{%"), Tok(RBP, "%}"));
    CodeYields(c);
    CodeYields(a);
    CodeYields(b);
    YieldCode(CodeNode(c));
    YieldCode(CodeNode(b));
    YieldThree(CodeNode(a), block, [CodeNode(b)]);
    var els := [CodeNode(a), block, CodeNode(b)];
    assert els == [CodeNode(a), block] + [CodeNode(b)] && els[2..] == [CodeNode(b)];
    AcceptsExactly(ts, els);
  }

  /** A pub section with HTML inside: the mode changes there and back, and the blocks nest. */
  lemma HtmlInPubAccepted(a: string, c: string, b: string)
    requires Quiet(a) && Quiet(c) && Quiet(b)
    ensures
      var text := "{%" + (a + ("{{" + (c + ("}}" + (b + ("%}" + ""))))));
      var html := Block([CodeNode(c)], Tok(LBLB, "{{"), Tok(RBRB, "}}"));
      var pub := Block([CodeNode(a), html, CodeNode(b)], Tok(LBP, "{%"), Tok(RBP, "%}"));
      && Lex(START, text).Some?
      && ParseFile(Lex(START, text).value) == Some([CodeNode(""), pub, CodeNode("")])
  {
    hide Lex, After, ParseFile, NestedToks, Quiet;
    NestedModes();
    LexNested(a, c, b, After(START, LBP).value, After(After(START, LBP).value, LBLB).value);
    ParseNested(a, c, b);
  }

  lemma NestedModes()
    ensures
      var inPub := After(START, LBP);
      && inPub.Some? && inPub.value.mode == Pub && After(inPub.value, RBP) == Some(START)
      && var inHtml := After(inPub.value, LBLB);
         inHtml.Some? && inHtml.value.mode == Initial && After(inHtml.value, RBRB) == inPub
  {
    assert [Initial][..0] == [] && ([Initial] + [Pub])[..1] == [Initial];
  }

  function NestedToks(a: string, c: string, b: string): seq<Tok> {
    [Tok(LBP, "{%")] + (CodeOf(a) + ([Tok(LBLB, "{{")] + (CodeOf(c) + ([Tok(RBRB, "}}")] + (CodeOf(b) + [Tok(RBP, "%}")])))))
  }

  lemma LexNested(a: string, c: string, b: string, inPub: Modes, inHtml: Modes)
    requires Quiet(a) && Quiet(c) && Quiet(b)
    requires After(START, LBP) == Some(inPub) && After(inPub, LBLB) == Some(inHtml)
    requires After(inPub, RBP) == Some(START) && After(inHtml, RBRB) == Some(inPub)
    requires inPub.mode == Pub && inHtml.mode == Initial
    ensures Lex(START, "{%" + (a + ("{{" + (c + ("}}" + (b + ("%}" + ""))))))) == Some(NestedToks(a, c, b))
  {
    hide Lex, After, CodeOf;
    var r6 := "%}" + "";
    var r5 := b + r6;
    var r4 := "}}" + r5;
    var r3 := c + r4;
    var r2 := "{{" + r3;
    var r1 := a + r2;
    LexDelimiter(START, "{%", LBP, r1);
    LexCode(inPub, a, r2);
    LexDelimiter(inPub, "{{", LBLB, r3);
    LexCode(inHtml, c, r4);
    LexDelimiter(inHtml, "}}", RBRB, r5);
    LexCode(inPub, b, r6);
    LexDelimiter(inPub, "%}", RBP, "");
    LexNothing();
    assert [Tok(RBP, "%}")] + [] == [Tok(RBP, "%}")];
  }

  lemma LexNothing()
    ensures forall m :: Lex(m, "") == Some([])
  {
  }

  lemma ParseNested(a: string, c: string, b: string)
    ensures
      var html := Block([CodeNode(c)], Tok(LBLB, "{{"), Tok(RBRB, "}}"));
      var pub := Block([CodeNode(a), html, CodeNode(b)], Tok(LBP, "{%"), Tok(RBP, "%}"));
      ParseFile(NestedToks(a, c, b)) == Some([CodeNode(""), pub, CodeNode("")])
  {
    var html := Block([CodeNode(c)], Tok(LBLB, "{{"), Tok(RBRB, "}}"));
    var inner := [CodeNode(a), html, CodeNode(b)];
    var pub := Block(inner, Tok(LBP, "{%"), Tok(RBP, "%}"));
    var els := [CodeNode(""), pub, CodeNode("")];
    CodeYields(a);
    CodeYields(c);
    CodeYields(b);
    CodeYields("");
    YieldCode(CodeNode(c));
    YieldCode(CodeNode(b));
    YieldCode(CodeNode(""));
    assert inner == [CodeNode(a), html] + [CodeNode(b)] && inner[2..] == [CodeNode(b)];
    assert els == [CodeNode(""), pub] + [CodeNode("")] && els[2..] == [CodeNode("")];
    YieldThree(CodeNode(a), html, [CodeNode(b)]);
    YieldThree(CodeNode(""), pub, [CodeNode("")]);
    assert Inner([CodeNode(c)]) && Inner(inner) && Inner(els);
    Close(CodeOf(a), Tok(LBLB, "{{"), CodeOf(c), Tok(RBRB, "}}"), CodeOf(b), Tok(RBP, "%}"));
    var tail := YieldAll(inner) + [Tok(RBP, "%}")];
    assert [] + ([Tok(LBP, "{%")] + (YieldAll(inner) + ([Tok(RBP, "%}")] + []))) == [Tok(LBP, "{%")] + tail;
    AcceptsExactly(NestedToks(a, c, b), els);
  }

  lemma Close(a: seq<Tok>, open: Tok, c: seq<Tok>, close: Tok, b: seq<Tok>, last: Tok)
    ensures a + ([open] + (c + ([close] + b))) + [last] == a + ([open] + (c + ([close] + (b + [last]))))
  {
    assert [close] + b + [last] == [close] + (b + [last]);
    assert c + ([close] + b) + [last] == c + ([close] + (b + [last]));
    assert [open] + (c + ([close] + b)) + [last] == [open] + (c + ([close] + (b + [last])));
  }

  lemma CodeYields(c: string)
    ensures CodeToks(CodeNode(c).v) == CodeOf(c)
  {
  }

  // ---- the theorems ----

  lemma {:induction false} StrIsTexts(n: Node)
    ensures Str(n) == Texts(Yield(n))
    decreases n
  {
    match n {
      case Code(v) => JoinIsTexts(v);
      case Block(els, open, close) =>
        StrAllIsTexts(els);
        TextsConcat([open] + YieldAll(els), [close]);
        TextsConcat([open], YieldAll(els));
        assert Texts([open]) == open.text && Texts([close]) == close.text;
    }
  }

  lemma {:induction false} StrAllIsTexts(els: seq<Node>)
    ensures StrAll(els) == Texts(YieldAll(els))
    decreases els
  {
    if |els| > 0 {
      StrIsTexts(els[0]);
      StrAllIsTexts(els[1..]);
      TextsConcat(Yield(els[0]), YieldAll(els[1..]));
    }
  }

  lemma {:induction false} JoinIsTexts(v: seq<string>)
    ensures Join(v) == Texts(CodeToks(v))
  {
    if |v| > 0 {
      JoinIsTexts(v[1..]);
      assert CodeToks(v)[1..] == CodeToks(v[1..]);
    }
  }

  lemma {:induction false} AfterConcat(m: Modes, a: seq<Tok>, b: seq<Tok>)
    ensures AfterAll(m, a + b) == if AfterAll(m, a).Some? then AfterAll(AfterAll(m, a).value, b) else None
    decreases |a|
  {
    if |a| == 0 {
      assert a + b == b;
    } else {
      assert (a + b)[1..] == a[1..] + b;
      if After(m, a[0].kind).Some? {
        AfterConcat(After(m, a[0].kind).value, a[1..], b);
      }
    }
  }

  lemma {:induction false} CodeKeepsModes(m: Modes, v: seq<string>)
    ensures AfterAll(m, CodeToks(v)) == Some(m)
  {
    if |v| > 0 {
      assert CodeToks(v)[1..] == CodeToks(v[1..]);
      CodeKeepsModes(m, v[1..]);
    }
  }

  /** What the grammar derives leaves the lexer's mode stack as it was. */
  lemma {:induction false} InnerKeepsModes(m: Modes, els: seq<Node>)
    requires Inner(els)
    ensures AfterAll(m, YieldAll(els)) == Some(m)
    decreases els
  {
    CodeKeepsModes(m, els[0].v);
    AfterConcat(m, Yield(els[0]), YieldAll(els[1..]));
    if |els| > 1 {
      var b, more := els[1], els[2..];
      assert els[1..][0] == b && els[1..][1..] == more;
      BlockKeepsModes(m, b);
      InnerKeepsModes(m, more);
      AfterConcat(m, Yield(b), YieldAll(more));
    }
  }

  lemma {:induction false} BlockKeepsModes(m: Modes, b: Node)
    requires b.Block? && Opens(b.open.kind) && b.close.kind == Closer(b.open.kind) && Inner(b.els)
    ensures AfterAll(m, Yield(b)) == Some(m)
    decreases b
  {
    var inside := After(m, b.open.kind).value;
    InnerKeepsModes(inside, b.els);
    AfterConcat(m, [b.open] + YieldAll(b.els), [b.close]);
    AfterConcat(m, [b.open], YieldAll(b.els));
    assert AfterAll(m, [b.open]) == Some(inside) by { assert [b.open][1..] == []; }
    assert [b.close][1..] == [];
    assert (m.below + [m.mode])[..|m.below|] == m.below;
  }

  /** For every text the script accepts, printing the tree before any rewriting gives back the text, and the lexer is
      in its first mode again. */
  lemma Lossless(text: string)
    requires Lex(START, text).Some? && ParseFile(Lex(START, text).value).Some?
    ensures StrAll(ParseFile(Lex(START, text).value).value) == text
    ensures AfterAll(START, Lex(START, text).value) == Some(START)
  {
    var ts := Lex(START, text).value;
    LexIsLossless(START, text);
    ParseSound(ts);
    var els := ParseFile(ts).value;
    assert YieldAll(els) == ts;
    StrAllIsTexts(els);
    InnerKeepsModes(START, els);
  }

  /** The parser accepts exactly the token sequences that some tree of the grammar stands for, and that tree is the
      only one. */
  lemma AcceptsExactly(ts: seq<Tok>, els: seq<Node>)
    ensures ParseFile(ts) == Some(els) <==> Inner(els) && YieldAll(els) == ts
  {
    if ParseFile(ts) == Some(els) {
      ParseSound(ts);
    }
    if Inner(els) && YieldAll(els) == ts {
      ParseComplete(els, []);
      assert YieldAll(els) + [] == ts;
    }
  }

  // ---- balance ----

  /** Every delimiter is closed by its own kind, innermost first; due are the kinds still to come, innermost first. */
  predicate Balanced(ts: seq<Tok>, due: seq<Kind>) {
    if |ts| == 0 then |due| == 0
    else
      match ts[0].kind
      case CODE => Balanced(ts[1..], due)
      case LBP => Balanced(ts[1..], [RBP] + due)
      case LBLB => Balanced(ts[1..], [RBRB] + due)
      case LB => Balanced(ts[1..], [RB] + due)
      case _ => |due| > 0 && due[0] == ts[0].kind && Balanced(ts[1..], due[1..])
  }

  lemma {:induction false} CodeBalances(ts: seq<Tok>, due: seq<Kind>)
    ensures Balanced(ts, due) <==> Balanced(ts[CodeLen(ts)..], due)
  {
    if |ts| > 0 && ts[0].kind.CODE? {
      CodeBalances(ts[1..], due);
      assert ts[1..][CodeLen(ts[1..])..] == ts[CodeLen(ts)..];
    } else {
      assert ts[0..] == ts;
    }
  }

  /** What the parser can take from the front of balanced tokens is balanced, and it stops where a block ends. */
  lemma {:induction false} ParsesBalanced(ts: seq<Tok>, due: seq<Kind>)
    ensures Balanced(ts, due) ==> ParseInner(ts).Some?
    ensures ParseInner(ts).Some? ==>
      var rest := ParseInner(ts).value.rest;
      && (Balanced(ts, due) <==> Balanced(rest, due))
      && (|rest| > 0 ==> !rest[0].kind.CODE? && !Opens(rest[0].kind))
    decreases |ts|
  {
    hide Balanced, Closer, Opens, TakeCode;
    var n := CodeLen(ts);
    CodeBalances(ts, due);
    if n < |ts| && Opens(ts[n].kind) {
      var close := Closer(ts[n].kind);
      OpenBalances(ts[n..], due);
      assert ts[n..][1..] == ts[n + 1..];
      ParsesBalanced(ts[n + 1..], [close] + due);
      if ParseInner(ts[n + 1..]).Some? {
        var rest := ParseInner(ts[n + 1..]).value.rest;
        CloseBalances(rest, close, due);
        if |rest| > 0 {
          ParsesBalanced(rest[1..], due);
        }
      }
    }
  }

  lemma OpenBalances(ts: seq<Tok>, due: seq<Kind>)
    requires |ts| > 0 && Opens(ts[0].kind)
    ensures Balanced(ts, due) <==> Balanced(ts[1..], [Closer(ts[0].kind)] + due)
  {
  }

  lemma {:induction false} CloseBalances(ts: seq<Tok>, close: Kind, due: seq<Kind>)
    requires |ts| > 0 ==> !ts[0].kind.CODE? && !Opens(ts[0].kind)
    ensures Balanced(ts, [close] + due) <==> |ts| > 0 && ts[0].kind == close && Balanced(ts[1..], due)
  {
    assert ([close] + due)[1..] == due;
  }

  /** A file is accepted if and only if its delimiters are balanced. */
  lemma AcceptsBalanced(ts: seq<Tok>)
    ensures ParseFile(ts).Some? <==> Balanced(ts, [])
  {
    ParsesBalanced(ts, []);
    if ParseInner(ts).Some? {
      var rest := ParseInner(ts).value.rest;
      assert |rest| > 0 ==> !Balanced(rest, []);
    }
  }

  /** The lexer as ply drives it: rules change the mode stack as they match. */
  class PubLexer {
    var modes: Modes
    var data: string
    var pos: nat

    ghost predicate Valid()
      reads this
    {
      pos <= |data|
    }

    constructor (data: string)
      ensures Valid() && modes == START && this.data == data && pos == 0
    {
      modes, this.data, pos := START, data, 0;
    }

    /** The next token; ok is false for a close that has no mode to go back to. */
    method Token() returns (ok: bool, t: Tok)
      requires Valid() && pos < |data|
      modifies `modes, `pos
      ensures Valid() && t == NextTok(old(modes).mode, data[old(pos)..])
      ensures ok <==> After(old(modes), t.kind).Some?
      ensures ok ==> Some(modes) == After(old(modes), t.kind) && pos == old(pos) + |t.text|
    {
      t := NextTok(modes.mode, data[pos..]);
      ok := true;
      match t.kind {
        case LBP => PushState(Pub);
        case LBLB => PushState(Initial);
        case RBP => ok := PopState();
        case RBRB => ok := PopState();
        case _ =>
      }
      pos := pos + |t.text|;
    }

    method PushState(mode: Mode)
      modifies `modes
      ensures modes == Modes(mode, old(modes).below + [old(modes).mode])
    {
      modes := Modes(mode, modes.below + [modes.mode]);
    }

    method PopState() returns (ok: bool)
      modifies `modes
      ensures ok <==> |old(modes).below| > 0
      ensures ok ==> modes == Modes(old(modes).below[|old(modes).below| - 1], old(modes).below[..|old(modes).below| - 1])
    {
      var n := |modes.below|;
      ok := n > 0;
      if ok {
        modes := Modes(modes.below[n - 1], modes.below[..n - 1]);
      }
    }

    /** Every token of the data. */
    method Tokenize() returns (ok: bool, ts: seq<Tok>)
      requires Valid() && pos == 0
      modifies `modes, `pos
      ensures ok <==> Lex(old(modes), data).Some?
      ensures ok ==> Some(ts) == Lex(old(modes), data) && Some(modes) == AfterAll(old(modes), ts)
    {
      ok, ts := true, [];
      assert data[0..] == data;
      PrependNothing(Lex(modes, data));
      while pos < |data|
        invariant Valid() && Some(modes) == AfterAll(old(modes), ts)
        invariant Lex(old(modes), data) == Prepend(ts, Lex(modes, data[pos..]))
        decreases |data| - pos
      {
        ghost var m, at := modes, pos;
        var t: Tok;
        ok, t := Token();
        if !ok {
          return;
        }
        AfterConcat(old(modes), ts, [t]);
        assert AfterAll(m, [t]) == Some(modes) by { assert [t][1..] == []; }
        assert data[at..][|t.text|..] == data[pos..];
        PrependTwice(ts, [t], Lex(modes, data[pos..]));
        ts := ts + [t];
      }
      assert data[pos..] == "" && ts + [] == ts;
    }
  }
}
