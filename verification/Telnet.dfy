// Telnet negotiation (plugins/protocol-telnet/negotiate.go): the byte-level
// state machine behind Negotiator.Read, its replies, and the IAC escaping of
// the write path. RFC 854 (commands), RFC 855 (subnegotiation), RFC 1073
// (NAWS) and RFC 1091 (TTYPE).
module Telnet {
  import opened Octets
  import opened Wrappers

  const IAC: byte := 255
  const DONT: byte := 254
  const DO: byte := 253
  const WONT: byte := 252
  const WILL: byte := 251
  const SB: byte := 250
  const SE: byte := 240

  const OPT_BINARY: byte := 0
  const OPT_ECHO: byte := 1
  const OPT_SGA: byte := 3
  const OPT_TTYPE: byte := 24
  const OPT_NAWS: byte := 31

  const TTYPE_IS: byte := 0
  const TTYPE_SEND: byte := 1

  /** Go's largest int on a 64-bit machine. */
  const MAX_INT := 0x7fff_ffff_ffff_ffff

  // ------------------------------------------------------------------
  // The language: Telnet items and how they are printed
  // ------------------------------------------------------------------

  /** One unit of a Telnet stream. */
  datatype Item =
    | Data(b: byte)                                  // an ordinary byte
    | Literal                                        // a data byte 255, sent doubled
    | Command(c: byte)                               // IAC and a command without parameters
    | Verb(verb: byte, opt: byte)                    // WILL, WONT, DO or DONT
    | Sub(opt: byte, payload: Bytes)                 // IAC SB opt payload IAC SE
    | BrokenSub(opt: byte, payload: Bytes, x: byte)  // a subnegotiation cut off by IAC x
  {
    predicate WellFormed() {
      match this
      case Data(b) => b != IAC
      case Literal => true
      case Command(c) => c !in {IAC, WILL, WONT, DO, DONT, SB}
      case Verb(v, _) => v in {WILL, WONT, DO, DONT}
      case Sub(_, _) => true
      case BrokenSub(_, _, x) => x !in {IAC, SE}
    }

    function Print(): Bytes {
      match this
      case Data(b) => [b]
      case Literal => [IAC, IAC]
      case Command(c) => [IAC, c]
      case Verb(v, o) => [IAC, v, o]
      case Sub(o, p) => [IAC, SB, o] + Escape(p) + [IAC, SE]
      case BrokenSub(o, p, x) => [IAC, SB, o] + Escape(p) + [IAC, x]
    }

    /** The application data the item carries. */
    function Payload(): Bytes {
      match this
      case Data(b) => [b]
      case Literal => [IAC]
      case _ => []
    }
  }

  predicate WellFormed(items: seq<Item>) {
    forall i | 0 <= i < |items| :: items[i].WellFormed()
  }

  function Print(items: seq<Item>): Bytes {
    if items == [] then [] else Print(items[..|items| - 1]) + items[|items| - 1].Print()
  }

  function Payload(items: seq<Item>): Bytes {
    if items == [] then [] else Payload(items[..|items| - 1]) + items[|items| - 1].Payload()
  }

  /** Every 255 doubled. */
  function Escape(p: Bytes): Bytes {
    if p == [] then []
    else Escape(p[..|p| - 1]) + if p[|p| - 1] == IAC then [IAC, IAC] else [p[|p| - 1]]
  }

  function Iacs(p: Bytes): nat {
    if p == [] then 0 else Iacs(p[..|p| - 1]) + if p[|p| - 1] == IAC then 1 else 0
  }

  /** Whether escapeIAC refuses p because the doubled length would not fit an int. */
  predicate TooLarge(p: Bytes) {
    Iacs(p) > 0 && Iacs(p) > MAX_INT - |p|
  }

  // ------------------------------------------------------------------
  // What the peer is answered
  // ------------------------------------------------------------------

  datatype Config = Config(termType: Bytes, cols: int, rows: int)

  function Clamp(x: int): (r: int)
    ensures 0 <= r <= 0xFFFF
  {
    if x < 0 then 0 else if x > 0xFFFF then 0xFFFF else x
  }

  function Word(hi: byte, lo: byte): int {
    hi as int * 256 + lo as int
  }

  /** A window size as the four bytes of RFC 1073: width then height, high byte first. */
  function SizeBytes(cols: int, rows: int): (p: Bytes)
    ensures |p| == 4 && Word(p[0], p[1]) == Clamp(cols) && Word(p[2], p[3]) == Clamp(rows)
  {
    [Clamp(cols) / 256, Clamp(cols) % 256, Clamp(rows) / 256, Clamp(rows) % 256]
  }

  /** The items sent back for one item received. */
  function Answer(c: Config, item: Item): seq<Item> {
    match item
    case Verb(v, opt) =>
      if v == WILL then
        [Verb(if opt in {OPT_ECHO, OPT_SGA, OPT_BINARY} then DO else DONT, opt)]
      else if v == DO then
        [Verb(if opt in {OPT_SGA, OPT_TTYPE, OPT_NAWS, OPT_BINARY} then WILL else WONT, opt)]
        + if opt == OPT_NAWS then [Sub(OPT_NAWS, SizeBytes(c.cols, c.rows))] else []
      else []
    case Sub(opt, payload) =>
      if opt == OPT_TTYPE && |payload| >= 1 && payload[0] == TTYPE_SEND && !TooLarge(c.termType) then
        [Sub(OPT_TTYPE, [TTYPE_IS] + c.termType)]
      else []
    case _ => []
  }

  function Answers(c: Config, items: seq<Item>): seq<Item> {
    if items == [] then [] else Answers(c, items[..|items| - 1]) + Answer(c, items[|items| - 1])
  }

  // ------------------------------------------------------------------
  // The machine
  // ------------------------------------------------------------------

  datatype Mode = Normal | GotIAC | GotWill | GotWont | GotDo | GotDont | GotSB | InSB | InSBGotIAC

  /** The scanner's position, and what it hands out while reading. */
  datatype Scan = Scan(mode: Mode, sbOpt: byte, sbBuf: Bytes)

  datatype Fed = Fed(scan: Scan, out: Bytes, reply: Bytes)

  /** One byte. */
  function Step(c: Config, s: Scan, b: byte): Fed {
    match s.mode
    case Normal => if b == IAC then Fed(s.(mode := GotIAC), [], []) else Fed(s, [b], [])
    case GotIAC =>
      if b == IAC then Fed(s.(mode := Normal), [IAC], [])
      else if b == WILL then Fed(s.(mode := GotWill), [], [])
      else if b == WONT then Fed(s.(mode := GotWont), [], [])
      else if b == DO then Fed(s.(mode := GotDo), [], [])
      else if b == DONT then Fed(s.(mode := GotDont), [], [])
      else if b == SB then Fed(s.(mode := GotSB), [], [])
      else Fed(s.(mode := Normal), [], [])
    case GotWill => Fed(s.(mode := Normal), [], Print(Answer(c, Verb(WILL, b))))
    case GotWont => Fed(s.(mode := Normal), [], [])
    case GotDo => Fed(s.(mode := Normal), [], Print(Answer(c, Verb(DO, b))))
    case GotDont => Fed(s.(mode := Normal), [], [])
    case GotSB => Fed(Scan(InSB, b, []), [], [])
    case InSB => if b == IAC then Fed(s.(mode := InSBGotIAC), [], []) else Fed(s.(sbBuf := s.sbBuf + [b]), [], [])
    case InSBGotIAC =>
      if b == IAC then Fed(s.(mode := InSB, sbBuf := s.sbBuf + [IAC]), [], [])
      else if b == SE then Fed(s.(mode := Normal), [], Print(Answer(c, Sub(s.sbOpt, s.sbBuf))))
      else Fed(s.(mode := Normal), [], [])
  }

  function Run(c: Config, s: Scan, input: Bytes): Fed {
    if input == [] then Fed(s, [], [])
    else
      var before := Run(c, s, input[..|input| - 1]);
      var last := Step(c, before.scan, input[|input| - 1]);
      Fed(last.scan, before.out + last.out, before.reply + last.reply)
  }

  lemma {:induction false} OutNoLonger(c: Config, s: Scan, input: Bytes)
    ensures |Run(c, s, input).out| <= |input|
  {
    if input != [] {
      OutNoLonger(c, s, input[..|input| - 1]);
    }
  }

  lemma RunStep(c: Config, s: Scan, input: Bytes, b: byte)
    ensures var before := Run(c, s, input);
            var last := Step(c, before.scan, b);
            Run(c, s, input + [b]) == Fed(last.scan, before.out + last.out, before.reply + last.reply)
  {
    assert (input + [b])[..|input + [b]| - 1] == input;
  }

  /** How the bytes are cut into chunks makes no difference. */
  lemma {:induction false} RunConcat(c: Config, s: Scan, x: Bytes, y: Bytes)
    ensures var first := Run(c, s, x);
            var second := Run(c, first.scan, y);
            Run(c, s, x + y) == Fed(second.scan, first.out + second.out, first.reply + second.reply)
  {
    hide Step;
    if y == [] {
      assert x + y == x;
    } else {
      var y' := y[..|y| - 1];
      assert x + y == (x + y') + [y[|y| - 1]];
      assert y == y' + [y[|y| - 1]];
      hide Run;
      RunConcat(c, s, x, y');
      RunStep(c, s, x + y', y[|y| - 1]);
      RunStep(c, Run(c, s, x).scan, y', y[|y| - 1]);
      var first := Run(c, s, x);
      var second, all := Run(c, first.scan, y'), Run(c, s, x + y');
      var last := Step(c, all.scan, y[|y| - 1]);
      assert first.out + second.out + last.out == first.out + (second.out + last.out);
      assert first.reply + second.reply + last.reply == first.reply + (second.reply + last.reply);
    }
  }

  /** A run over a list of chunks. */
  function RunChunks(c: Config, s: Scan, chunks: seq<Bytes>): Fed {
    if chunks == [] then Fed(s, [], [])
    else
      var before := RunChunks(c, s, chunks[..|chunks| - 1]);
      var last := Run(c, before.scan, chunks[|chunks| - 1]);
      Fed(last.scan, before.out + last.out, before.reply + last.reply)
  }

  lemma {:induction false} ChunksDoNotMatter(c: Config, s: Scan, chunks: seq<Bytes>)
    ensures RunChunks(c, s, chunks) == Run(c, s, Joined(chunks))
  {
    if chunks != [] {
      ChunksDoNotMatter(c, s, chunks[..|chunks| - 1]);
      RunConcat(c, s, Joined(chunks[..|chunks| - 1]), chunks[|chunks| - 1]);
    }
  }

  // ------------------------------------------------------------------
  // The machine decodes the language
  // ------------------------------------------------------------------

  lemma {:induction false} EscapeConcat(p: Bytes, q: Bytes)
    ensures Escape(p + q) == Escape(p) + Escape(q)
  {
    if q == [] {
      assert p + q == p;
    } else {
      EscapeConcat(p, q[..|q| - 1]);
      assert (p + q)[..|p + q| - 1] == p + q[..|q| - 1];
    }
  }

  /** Inside a subnegotiation an escaped payload is collected unescaped. */
  lemma {:induction false} CollectEscaped(c: Config, s: Scan, p: Bytes)
    requires s.mode == InSB
    ensures Run(c, s, Escape(p)) == Fed(s.(sbBuf := s.sbBuf + p), [], [])
  {
    hide Step;
    if p == [] {
      assert s.sbBuf + p == s.sbBuf;
    } else {
      var p', b := p[..|p| - 1], p[|p| - 1];
      assert Escape(p) == Escape(p') + if b == IAC then [IAC, IAC] else [b];
      hide Escape, Run;
      CollectEscaped(c, s, p');
      CollectOne(c, s.(sbBuf := s.sbBuf + p'), b);
      assert s.sbBuf + p == (s.sbBuf + p') + [b];
      RunConcat(c, s, Escape(p'), if b == IAC then [IAC, IAC] else [b]);
    }
  }

  lemma CollectOne(c: Config, s: Scan, b: byte)
    requires s.mode == InSB
    ensures Run(c, s, if b == IAC then [IAC, IAC] else [b]) == Fed(s.(sbBuf := s.sbBuf + [b]), [], [])
  {
    hide Run;
    if b == IAC {
      Run2(c, s, IAC, IAC);
    } else {
      Run1(c, s, b);
    }
  }

  lemma RunNothing(c: Config, s: Scan)
    ensures Run(c, s, []) == Fed(s, [], [])
  {
  }

  lemma Run1(c: Config, s: Scan, a: byte)
    ensures Run(c, s, [a]) == Step(c, s, a)
  {
    hide Step;
    RunStep(c, s, [], a);
    assert [] + [a] == [a];
  }

  lemma Run2(c: Config, s: Scan, a: byte, b: byte)
    ensures var first := Step(c, s, a);
            var second := Step(c, first.scan, b);
            Run(c, s, [a, b]) == Fed(second.scan, first.out + second.out, first.reply + second.reply)
  {
    RunStep(c, s, [], a);
    assert [] + [a] == [a];
    RunStep(c, s, [a], b);
    assert [a] + [b] == [a, b];
  }

  lemma Run3(c: Config, s: Scan, a: byte, b: byte, d: byte)
    ensures var first := Run(c, s, [a, b]);
            var last := Step(c, first.scan, d);
            Run(c, s, [a, b, d]) == Fed(last.scan, first.out + last.out, first.reply + last.reply)
  {
    RunStep(c, s, [a, b], d);
    assert [a, b] + [d] == [a, b, d];
  }

  lemma DecodeItem(c: Config, s: Scan, item: Item)
    requires s.mode == Normal && item.WellFormed()
    ensures var f := Run(c, s, item.Print());
            f.scan.mode == Normal && f.out == item.Payload() && f.reply == Print(Answer(c, item))
  {
    match item
    case Data(b) => RunStep(c, s, [], b); assert [] + [b] == [b];
    case Literal => Run2(c, s, IAC, IAC);
    case Command(x) => Run2(c, s, IAC, x);
    case Verb(v, o) => Run2(c, s, IAC, v); Run3(c, s, IAC, v, o);
    case Sub(o, p) => DecodeSub(c, s, o, p, SE);
    case BrokenSub(o, p, x) => DecodeSub(c, s, o, p, x);
  }

  lemma DecodeSub(c: Config, s: Scan, opt: byte, p: Bytes, end: byte)
    requires s.mode == Normal && end != IAC
    ensures Run(c, s, [IAC, SB, opt] + Escape(p) + [IAC, end])
         == Fed(Scan(Normal, opt, p), [], if end == SE then Print(Answer(c, Sub(opt, p))) else [])
  {
    hide Answer, Print, Escape, Run;
    Run2(c, s, IAC, SB);
    Run3(c, s, IAC, SB, opt);
    var s1 := Scan(InSB, opt, []);
    CollectEscaped(c, s1, p);
    assert [] + p == p;
    RunConcat(c, s, [IAC, SB, opt], Escape(p));
    Run2(c, Scan(InSB, opt, p), IAC, end);
    RunConcat(c, s, [IAC, SB, opt] + Escape(p), [IAC, end]);
  }

  lemma {:induction false} PrintConcat(x: seq<Item>, y: seq<Item>)
    ensures Print(x + y) == Print(x) + Print(y)
  {
    hide Item.Print;
    if y == [] {
      assert x + y == x;
    } else {
      PrintConcat(x, y[..|y| - 1]);
      assert (x + y)[..|x + y| - 1] == x + y[..|y| - 1];
    }
  }

  lemma AppendItem(c: Config, items: seq<Item>, item: Item)
    ensures var more := items + [item];
            && Print(more) == Print(items) + item.Print() && Payload(more) == Payload(items) + item.Payload()
            && Answers(c, more) == Answers(c, items) + Answer(c, item)
            && (WellFormed(more) <==> WellFormed(items) && item.WellFormed())
  {
    hide Answer, Item.Print, Item.Payload, Item.WellFormed;
    var more := items + [item];
    assert more[..|more| - 1] == items && more[|more| - 1] == item;
  }

  /**
   * A printed stream is decoded exactly: the data bytes and nothing else reach the application, every item is
   * answered in order, and the machine is back in its normal state.
   */
  lemma {:induction false} DecodePrinted(c: Config, s: Scan, items: seq<Item>)
    requires s.mode == Normal && WellFormed(items)
    ensures var f := Run(c, s, Print(items));
            f.scan.mode == Normal && f.out == Payload(items) && f.reply == Print(Answers(c, items))
  {
    hide Answer, Step;
    if items != [] {
      var init, last := items[..|items| - 1], items[|items| - 1];
      DecodePrinted(c, s, init);
      DecodeItem(c, Run(c, s, Print(init)).scan, last);
      RunConcat(c, s, Print(init), last.Print());
      PrintConcat(Answers(c, init), Answer(c, last));
    }
  }

  /** The bytes of an item that is still being read. */
  function Pending(s: Scan): Bytes {
    match s.mode
    case Normal => []
    case GotIAC => [IAC]
    case GotWill => [IAC, WILL]
    case GotWont => [IAC, WONT]
    case GotDo => [IAC, DO]
    case GotDont => [IAC, DONT]
    case GotSB => [IAC, SB]
    case InSB => [IAC, SB, s.sbOpt] + Escape(s.sbBuf)
    case InSBGotIAC => [IAC, SB, s.sbOpt] + Escape(s.sbBuf) + [IAC]
  }

  /** The input is these complete items and the pending bytes, and only the items had an effect. */
  predicate Parsed(c: Config, s: Scan, input: Bytes, items: seq<Item>) {
    var f := Run(c, s, input);
    && WellFormed(items)
    && input == Print(items) + Pending(f.scan)
    && f.out == Payload(items)
    && f.reply == Print(Answers(c, items))
  }

  /** What a byte that completes an item contributes. */
  function Completed(s: Scan, b: byte): Option<Item> {
    match s.mode
    case Normal => if b == IAC then None else Some(Data(b))
    case GotIAC =>
      if b == IAC then Some(Literal)
      else if b in {WILL, WONT, DO, DONT, SB} then None
      else Some(Command(b))
    case GotWill => Some(Verb(WILL, b))
    case GotWont => Some(Verb(WONT, b))
    case GotDo => Some(Verb(DO, b))
    case GotDont => Some(Verb(DONT, b))
    case GotSB => None
    case InSB => None
    case InSBGotIAC =>
      if b == IAC then None
      else if b == SE then Some(Sub(s.sbOpt, s.sbBuf))
      else Some(BrokenSub(s.sbOpt, s.sbBuf, b))
  }

  /** A byte either goes on with the pending item or completes it, and only completion has an effect. */
  predicate StepParsed(c: Config, s: Scan, b: byte) {
    var f := Step(c, s, b);
    match Completed(s, b)
    case None => Pending(f.scan) == Pending(s) + [b] && f.out == [] && f.reply == []
    case Some(item) =>
      && item.WellFormed() && f.scan.mode == Normal && item.Print() == Pending(s) + [b]
      && f.out == item.Payload() && f.reply == Print(Answer(c, item))
  }

  lemma StepParses(c: Config, s: Scan, b: byte)
    ensures StepParsed(c, s, b)
  {
    hide Print;
    PrintNothing();
    if s.mode == InSB || s.mode == InSBGotIAC {
      SubStepParses(c, s, b);
    }
  }

  lemma PrintNothing()
    ensures Print([]) == []
  {
  }

  lemma SubStepParses(c: Config, s: Scan, b: byte)
    requires s.mode == InSB || s.mode == InSBGotIAC
    ensures StepParsed(c, s, b)
  {
    hide Print, Escape;
    PrintNothing();
    EscapeOne(s.sbBuf, b);
    var head, body := [IAC, SB, s.sbOpt], Escape(s.sbBuf);
    assert head + (body + [b]) == head + body + [b];
    assert head + body + [IAC] + [b] == head + body + [IAC, b];
    assert head + (body + [IAC, IAC]) == head + body + [IAC, IAC];
  }

  lemma EscapeOne(p: Bytes, b: byte)
    ensures Escape(p + [b]) == Escape(p) + if b == IAC then [IAC, IAC] else [b]
  {
    assert (p + [b])[..|p|] == p;
  }

  /**
   * Every byte stream whatever is a sequence of complete items and one unfinished one: there is no input on which
   * the machine loses its place, and the data it lets through is exactly the items' data.
   */
  lemma {:induction false} EveryStreamParses(c: Config, s: Scan, input: Bytes)
    requires s.mode == Normal
    ensures exists items :: Parsed(c, s, input, items)
  {
    hide Step, Completed, Pending, Parsed, Run;
    if input == [] {
      ParseNothing(c, s);
    } else {
      var before, b := input[..|input| - 1], input[|input| - 1];
      EveryStreamParses(c, s, before);
      var items :| Parsed(c, s, before, items);
      var scan := Run(c, s, before).scan;
      assert before + [b] == input;
      if Completed(scan, b) == None {
        ParseGoesOn(c, s, before, b, items);
      } else {
        ParseItem(c, s, before, b, items, Completed(scan, b).value);
      }
    }
  }

  lemma ParseNothing(c: Config, s: Scan)
    requires s.mode == Normal
    ensures Parsed(c, s, [], [])
  {
  }

  lemma ParseGoesOn(c: Config, s: Scan, before: Bytes, b: byte, items: seq<Item>)
    requires Parsed(c, s, before, items) && Completed(Run(c, s, before).scan, b) == None
    ensures Parsed(c, s, before + [b], items)
  {
    hide Print, Payload, Answers, Step, Pending, Completed, Run;
    RunStep(c, s, before, b);
    StepParses(c, Run(c, s, before).scan, b);
  }

  lemma ParseItem(c: Config, s: Scan, before: Bytes, b: byte, items: seq<Item>, item: Item)
    requires Parsed(c, s, before, items) && Completed(Run(c, s, before).scan, b) == Some(item)
    ensures Parsed(c, s, before + [b], items + [item])
  {
    hide Answer, Step, Completed, Run, Print, Payload, Answers, WellFormed, Item.Print, Item.Payload, Item.WellFormed;
    RunStep(c, s, before, b);
    StepParses(c, Run(c, s, before).scan, b);
    AppendItem(c, items, item);
    PrintConcat(Answers(c, items), Answer(c, item));
  }

  /** The streams that leave the machine in its normal state are exactly the printed ones. */
  lemma CompleteIffPrinted(c: Config, s: Scan, input: Bytes)
    requires s.mode == Normal
    ensures Run(c, s, input).scan.mode == Normal <==> exists items :: WellFormed(items) && input == Print(items)
  {
    if Run(c, s, input).scan.mode == Normal {
      EveryStreamParses(c, s, input);
      var items :| Parsed(c, s, input, items);
      assert WellFormed(items) && input == Print(items);
    }
    if items :| WellFormed(items) && input == Print(items) {
      DecodePrinted(c, s, items);
    }
  }

  // ------------------------------------------------------------------
  // Round trips
  // ------------------------------------------------------------------

  /** The bytes of p as data items. */
  function AsData(p: Bytes): seq<Item> {
    if p == [] then []
    else AsData(p[..|p| - 1]) + [if p[|p| - 1] == IAC then Literal else Data(p[|p| - 1])]
  }

  lemma {:induction false} AsDataMeans(c: Config, p: Bytes)
    ensures WellFormed(AsData(p)) && Print(AsData(p)) == Escape(p) && Payload(AsData(p)) == p
    ensures Answers(c, AsData(p)) == []
  {
    if p != [] {
      hide Print, Payload, WellFormed, Answers, Escape;
      var p', b := p[..|p| - 1], p[|p| - 1];
      assert p == p' + [b];
      EscapeOne(p', b);
      AsDataMeans(c, p');
      AppendItem(c, AsData(p'), if b == IAC then Literal else Data(b));
    }
  }

  /** What one side escapes the other side reads back unchanged, without a reply. */
  lemma EscapeDecodes(c: Config, s: Scan, p: Bytes)
    requires s.mode == Normal
    ensures var f := Run(c, s, Escape(p)); f.scan.mode == Normal && f.out == p && f.reply == []
  {
    AsDataMeans(c, p);
    DecodePrinted(c, s, AsData(p));
  }

  // ------------------------------------------------------------------
  // On the wire, in numbers
  // ------------------------------------------------------------------

  /** A byte as it is escaped. */
  function Twice(b: byte): Bytes {
    if b == 255 then [255, 255] else [b]
  }

  /** Escaping goes byte by byte, doubles 255 and adds one byte for each; it is refused when the length overflows. */
  lemma EscapeExactly(p: Bytes, b: byte)
    ensures Escape([]) == [] && Escape(p + [b]) == Escape(p) + Twice(b)
    ensures |Escape(p)| == |p| + Iacs(p) && Iacs([]) == 0 && Iacs(p + [b]) == Iacs(p) + if b == 255 then 1 else 0
    ensures TooLarge(p) <==> Iacs(p) > 0 && |Escape(p)| > 0x7fff_ffff_ffff_ffff
  {
    EscapeOne(p, b);
    assert (p + [b])[..|p|] == p;
    EscapeLength(p);
  }

  lemma {:induction false} EscapeLength(p: Bytes)
    ensures |Escape(p)| == |p| + Iacs(p)
  {
    if p != [] {
      EscapeLength(p[..|p| - 1]);
    }
  }

  /** Data goes through, 255 doubled arrives as one, and a command without parameters does nothing. */
  lemma DataOnTheWire(c: Config, s: Scan, b: byte)
    requires s.mode == Normal
    ensures b != 255 ==> Run(c, s, [b]) == Fed(s, [b], [])
    ensures Run(c, s, [255, 255]) == Fed(s, [255], [])
    ensures b < 250 ==> Run(c, s, [255, b]) == Fed(s, [], [])
  {
    hide Run, Print, Answer;
    Run1(c, s, b);
    Run2(c, s, 255, 255);
    Run2(c, s, 255, b);
  }

  /**
   * What is answered: IAC WILL is agreed to for BINARY, ECHO and SGA, IAC DO for BINARY, SGA and TTYPE; everything
   * else is refused, and IAC WONT and IAC DONT get no answer. The answer to DO NAWS is WindowSizeOnTheWire's.
   */
  lemma VerbsOnTheWire(c: Config, s: Scan, opt: byte)
    requires s.mode == Normal
    ensures Run(c, s, [255, 251, opt]).reply == [255, if opt == 0 || opt == 1 || opt == 3 then 253 else 254, opt]
    ensures opt != 31 ==>
              Run(c, s, [255, 253, opt]).reply == [255, if opt == 0 || opt == 3 || opt == 24 then 251 else 252, opt]
    ensures Run(c, s, [255, 252, opt]).reply == [] && Run(c, s, [255, 254, opt]).reply == []
    ensures forall verb: byte | 251 <= verb <= 254 ::
              Run(c, s, [255, verb, opt]).out == [] && Run(c, s, [255, verb, opt]).scan.mode == Normal
  {
    hide Run, Print;
    forall verb: byte | 251 <= verb <= 254
      ensures Run(c, s, [255, verb, opt]).reply == Print(Answer(c, Verb(verb, opt)))
      ensures Run(c, s, [255, verb, opt]).out == [] && Run(c, s, [255, verb, opt]).scan.mode == Normal
    {
      VerbOnTheWire(c, s, verb, opt);
    }
    AnswersToVerbs(c, opt);
  }

  lemma AnswersToVerbs(c: Config, opt: byte)
    ensures Print(Answer(c, Verb(251, opt))) == [255, if opt == 0 || opt == 1 || opt == 3 then 253 else 254, opt]
    ensures opt != 31 ==>
              Print(Answer(c, Verb(253, opt))) == [255, if opt == 0 || opt == 3 || opt == 24 then 251 else 252, opt]
    ensures Print(Answer(c, Verb(252, opt))) == [] && Print(Answer(c, Verb(254, opt))) == []
  {
    hide Print;
    PrintNothing();
    PrintOne(Verb(if opt == 0 || opt == 1 || opt == 3 then 253 else 254, opt));
    var yes := Verb(if opt == 0 || opt == 3 || opt == 24 then 251 else 252, opt);
    PrintOne(yes);
    assert [yes] + [] == [yes];
  }

  lemma VerbOnTheWire(c: Config, s: Scan, verb: byte, opt: byte)
    requires s.mode == Normal && verb in {WILL, WONT, DO, DONT}
    ensures var f := Run(c, s, [255, verb, opt]);
            f.scan.mode == Normal && f.out == [] && f.reply == Print(Answer(c, Verb(verb, opt)))
  {
    hide Run, Print, Answer;
    DecodeItem(c, s, Verb(verb, opt));
  }

  /** A window size as it is sent: two clamped numbers, high byte first, 255 doubled. */
  ghost function SizeFrame(cols: int, rows: int): Bytes {
    var w := if cols < 0 then 0 else if cols > 65535 then 65535 else cols;
    var h := if rows < 0 then 0 else if rows > 65535 then 65535 else rows;
    [255, 250, 31] + Twice(w / 256) + Twice(w % 256) + Twice(h / 256) + Twice(h % 256) + [255, 240]
  }

  lemma SizePrinted(cols: int, rows: int)
    ensures Sub(OPT_NAWS, SizeBytes(cols, rows)).Print() == SizeFrame(cols, rows)
  {
    var p := SizeBytes(cols, rows);
    EscapeFour(p[0], p[1], p[2], p[3]);
    assert p == [p[0], p[1], p[2], p[3]];
    hide Escape, Twice;
    Regroup([255, 250, 31], Twice(p[0]), Twice(p[1]), Twice(p[2]), Twice(p[3]), [255, 240]);
  }

  lemma Regroup(x: Bytes, a: Bytes, b: Bytes, c: Bytes, d: Bytes, y: Bytes)
    ensures x + (a + b + c + d) + y == x + a + b + c + d + y
  {
  }

  /** DO NAWS is agreed to and followed by the window size. */
  lemma WindowSizeOnTheWire(c: Config, s: Scan)
    requires s.mode == Normal
    ensures Run(c, s, [255, 253, 31]).reply == [255, 251, 31] + SizeFrame(c.cols, c.rows)
  {
    var will, size := Verb(WILL, OPT_NAWS), Sub(OPT_NAWS, SizeBytes(c.cols, c.rows));
    assert Answer(c, Verb(DO, OPT_NAWS)) == [will] + [size];
    hide Run, Print, Escape, Answer, SizeFrame, SizeBytes;
    VerbOnTheWire(c, s, 253, 31);
    PrintConcat([will], [size]);
    PrintOne(will);
    PrintOne(size);
    SizePrinted(c.cols, c.rows);
  }

  lemma EscapeFour(a: byte, b: byte, c: byte, d: byte)
    ensures Escape([a, b, c, d]) == Twice(a) + Twice(b) + Twice(c) + Twice(d)
  {
    hide Escape, Iacs, TooLarge, Twice;
    EscapeExactly([], a);
    EscapeExactly([a], b);
    EscapeExactly([a, b], c);
    EscapeExactly([a, b, c], d);
    assert [] + [a] == [a] && [a] + [b] == [a, b] && [a, b] + [c] == [a, b, c] && [a, b, c] + [d] == [a, b, c, d];
  }

  /** TTYPE SEND is answered with the terminal type, any other subnegotiation with nothing. */
  lemma SubnegotiationOnTheWire(c: Config, s: Scan, opt: byte, p: Bytes)
    requires s.mode == Normal
    ensures var f := Run(c, s, [255, 250, opt] + Escape(p) + [255, 240]);
            && f.scan.mode == Normal && f.out == []
            && f.reply == if opt == 24 && |p| >= 1 && p[0] == 1 && !TooLarge(c.termType)
                          then [255, 250, 24, 0] + Escape(c.termType) + [255, 240]
                          else []
  {
    DecodeSub(c, s, opt, p, 240);
    TerminalTypePrinted(c.termType);
    PrintNothing();
    hide Run, Print, Escape;
  }

  function ParseNAWS(sb: Bytes): (int, int, bool) {
    if |sb| != 4 then (0, 0, false) else (Word(sb[0], sb[1]), Word(sb[2], sb[3]), true)
  }

  /** A window size built, sent, collected and parsed is the size clamped to 16 bits. */
  lemma SizeRoundTrip(c: Config, s: Scan, cols: int, rows: int)
    requires s.mode == Normal
    ensures var f := Run(c, s, Sub(OPT_NAWS, SizeBytes(cols, rows)).Print());
            && f.scan.mode == Normal && f.scan.sbOpt == OPT_NAWS && f.out == [] && f.reply == []
            && ParseNAWS(f.scan.sbBuf) == (Clamp(cols), Clamp(rows), true)
  {
    DecodeSub(c, s, OPT_NAWS, SizeBytes(cols, rows), SE);
  }

  // ------------------------------------------------------------------
  // The methods
  // ------------------------------------------------------------------

  method CountIACs(p: Bytes) returns (count: nat)
    ensures count == Iacs(p)
  {
    count := 0;
    for i := 0 to |p|
      invariant count == Iacs(p[..i])
    {
      assert p[..i + 1][..i] == p[..i];
      if p[i] == IAC {
        count := count + 1;
      }
    }
    assert p[..|p|] == p;
  }

  lemma {:induction false} NoIacsNoEscape(p: Bytes)
    requires Iacs(p) == 0
    ensures Escape(p) == p
  {
    if p != [] {
      NoIacsNoEscape(p[..|p| - 1]);
    }
  }

  /** A copy of p with every 255 doubled; None when the doubled length does not fit an int. */
  method EscapeIAC(p: Bytes) returns (r: Option<Bytes>)
    ensures r == if TooLarge(p) then None else Some(Escape(p))
  {
    var count := CountIACs(p);
    if count == 0 {
      NoIacsNoEscape(p);
      return Some(p);
    }
    if count > MAX_INT - |p| {
      return None;
    }
    var out: Bytes := [];
    for i := 0 to |p|
      invariant out == Escape(p[..i])
    {
      assert p[..i + 1][..i] == p[..i];
      if p[i] == IAC {
        out := out + [IAC, IAC];
      } else {
        out := out + [p[i]];
      }
    }
    assert p[..|p|] == p;
    return Some(out);
  }

  lemma EscapeNothing(p: Bytes)
    ensures Escape(p[..0]) == []
  {
  }

  lemma EscapeNext(p: Bytes, i: nat)
    requires i < |p|
    ensures Escape(p[..i + 1]) == Escape(p[..i]) + if p[i] == IAC then [IAC, IAC] else [p[i]]
  {
    assert p[..i + 1][..i] == p[..i];
  }

  /** The NAWS frame for a window size. */
  method BuildNAWS(cols: int, rows: int) returns (out: Bytes)
    ensures out == Sub(OPT_NAWS, SizeBytes(cols, rows)).Print()
  {
    var w, h := cols, rows;
    if w < 0 {
      w := 0;
    }
    if w > 0xFFFF {
      w := 0xFFFF;
    }
    if h < 0 {
      h := 0;
    }
    if h > 0xFFFF {
      h := 0xFFFF;
    }
    var params: Bytes := [w / 256, w % 256, h / 256, h % 256];
    assert params == SizeBytes(cols, rows);
    out := AppendEscaped([IAC, SB, OPT_NAWS], params);
    out := out + [IAC, SE];
  }

  /** The loop of buildNAWS. */
  method AppendEscaped(start: Bytes, params: Bytes) returns (out: Bytes)
    ensures out == start + Escape(params)
  {
    hide Escape;
    EscapeNothing(params);
    out := start;
    for i := 0 to |params|
      invariant out == start + Escape(params[..i])
    {
      EscapeNext(params, i);
      if params[i] == IAC {
        out := out + [IAC, IAC];
      } else {
        out := out + [params[i]];
      }
    }
    assert params[..|params|] == params;
  }

  class NegState {
    var termType: Bytes
    var cols: int
    var rows: int
    var mode: Mode
    var sbOpt: byte
    var sbBuf: Bytes

    constructor (termType: Bytes, cols: int, rows: int)
      ensures Settings() == Config(termType, cols, rows) && Position() == Scan(Normal, 0, [])
    {
      this.termType := termType;
      this.cols := cols;
      this.rows := rows;
      mode := Normal;
      sbOpt := 0;
      sbBuf := [];
    }

    ghost function Settings(): Config
      reads this
    {
      Config(termType, cols, rows)
    }

    ghost function Position(): Scan
      reads this
    {
      Scan(mode, sbOpt, sbBuf)
    }

    /** Consumes the input: application data goes to the front of out, replies are returned. */
    method Feed(input: Bytes, out: array<byte>) returns (n: nat, reply: Bytes)
      requires |input| <= out.Length
      modifies `mode, `sbOpt, `sbBuf, out
      ensures n <= out.Length && out[n..] == old(out[n..])
      ensures Fed(Position(), out[..n], reply) == Run(Settings(), old(Position()), input)
    {
      hide Print, Answer, Escape, Run;
      reply := [];
      n := 0;
      RunNothing(Settings(), Position());
      ghost var c, s := Settings(), Position();
      for i := 0 to |input|
        invariant n <= i && Settings() == c
        invariant out[n..] == old(out[..])[n..]
        invariant Fed(Position(), out[..n], reply) == Run(c, s, input[..i])
      {
        var b := input[i];
        assert input[..i + 1] == input[..i] + [b];
        RunStep(c, s, input[..i], b);
        ghost var was := out[..n];
        ghost var before := Run(c, s, input[..i]);
        ghost var step := Step(c, before.scan, b);
        match mode
        case Normal =>
          if b == IAC {
            mode := GotIAC;
          } else {
            out[n] := b;
            n := n + 1;
          }
        case GotIAC =>
          if b == IAC {
            out[n] := 0xFF;
            n := n + 1;
            mode := Normal;
          } else if b == WILL {
            mode := GotWill;
          } else if b == WONT {
            mode := GotWont;
          } else if b == DO {
            mode := GotDo;
          } else if b == DONT {
            mode := GotDont;
          } else if b == SB {
            mode := GotSB;
          } else {
            mode := Normal;
          }
        case GotWill =>
          var answer := HandleWill(b);
          reply := reply + answer;
          mode := Normal;
        case GotWont =>
          mode := Normal;
        case GotDo =>
          var answer := HandleDo(b);
          reply := reply + answer;
          mode := Normal;
        case GotDont =>
          mode := Normal;
        case GotSB =>
          sbOpt := b;
          sbBuf := [];
          mode := InSB;
        case InSB =>
          if b == IAC {
            mode := InSBGotIAC;
          } else {
            sbBuf := sbBuf + [b];
          }
        case InSBGotIAC =>
          if b == IAC {
            sbBuf := sbBuf + [0xFF];
            mode := InSB;
          } else if b == SE {
            var answer := HandleSB();
            reply := reply + answer;
            mode := Normal;
          } else {
            mode := Normal;
          }
        assert Position() == step.scan;
        assert reply == before.reply + step.reply;
        assert out[..n] == was + step.out;
      }
      assert input[..|input|] == input;
    }

    method HandleWill(opt: byte) returns (reply: Bytes)
      ensures reply == Print(Answer(Settings(), Verb(WILL, opt)))
    {
      if opt == OPT_ECHO {
        return [IAC, DO, OPT_ECHO];
      } else if opt == OPT_SGA {
        return [IAC, DO, OPT_SGA];
      } else if opt == OPT_BINARY {
        return [IAC, DO, OPT_BINARY];
      } else {
        return [IAC, DONT, opt];
      }
    }

    method HandleDo(opt: byte) returns (reply: Bytes)
      ensures reply == Print(Answer(Settings(), Verb(DO, opt)))
    {
      PrintOne(Verb(WILL, opt));
      if opt == OPT_ECHO {
        return [IAC, WONT, OPT_ECHO];
      } else if opt == OPT_SGA {
        return [IAC, WILL, OPT_SGA];
      } else if opt == OPT_TTYPE {
        return [IAC, WILL, OPT_TTYPE];
      } else if opt == OPT_NAWS {
        reply := [IAC, WILL, OPT_NAWS];
        var frame := BuildNAWS(cols, rows);
        PrintOne(Sub(OPT_NAWS, SizeBytes(cols, rows)));
        PrintConcat([Verb(WILL, opt)], [Sub(OPT_NAWS, SizeBytes(cols, rows))]);
        return reply + frame;
      } else if opt == OPT_BINARY {
        return [IAC, WILL, OPT_BINARY];
      } else {
        return [IAC, WONT, opt];
      }
    }

    /** Answers the subnegotiation collected in sbBuf; a terminal type too long to escape is not announced. */
    method HandleSB() returns (reply: Bytes)
      ensures reply == Print(Answer(Settings(), Sub(sbOpt, sbBuf)))
    {
      if sbOpt == OPT_TTYPE {
        if |sbBuf| >= 1 && sbBuf[0] == TTYPE_SEND {
          var out: Bytes := [IAC, SB, OPT_TTYPE, TTYPE_IS];
          var escaped := EscapeIAC(termType);
          if escaped == None {
            return [];
          }
          out := out + escaped.value;
          out := out + [IAC, SE];
          TerminalTypePrinted(termType);
          hide Escape, Print;
          return out;
        }
      }
      return [];
    }
  }

  lemma EscapeOrdinary(b: byte)
    requires b != IAC
    ensures Escape([b]) == [b]
  {
  }

  lemma TerminalTypePrinted(termType: Bytes)
    ensures Print([Sub(OPT_TTYPE, [TTYPE_IS] + termType)])
         == [IAC, SB, OPT_TTYPE, TTYPE_IS] + Escape(termType) + [IAC, SE]
  {
    hide Escape, Print;
    PrintOne(Sub(OPT_TTYPE, [TTYPE_IS] + termType));
    EscapeConcat([TTYPE_IS], termType);
    EscapeOrdinary(TTYPE_IS);
    assert [IAC, SB, OPT_TTYPE] + ([TTYPE_IS] + Escape(termType)) == [IAC, SB, OPT_TTYPE, TTYPE_IS] + Escape(termType);
  }

  lemma PrintOne(item: Item)
    ensures Print([item]) == item.Print()
  {
    assert [item][..0] == [];
    assert [] + item.Print() == item.Print();
  }
}
