// Two negotiators wired reply-to-input: when the exchange they start falls
// silent (plugins/protocol-telnet/negotiate.go, handleWill/handleDo/handleSB).
module TelnetExchange {
  import opened Octets
  import opened Telnet

  /** One end of the wire: its settings and where its scanner stands. */
  datatype End = End(config: Config, scan: Scan)

  /** The n-th message of the exchange; the two ends take turns, `here` reads the first one. */
  function Message(here: End, there: End, stream: Bytes, n: nat): Bytes
    decreases n
  {
    if n == 0 then stream
    else
      var fed := Run(here.config, here.scan, stream);
      Message(there, here.(scan := fed.scan), fed.reply, n - 1)
  }

  /** The exchange on items. */
  function Volley(here: Config, there: Config, items: seq<Item>, n: nat): seq<Item>
    decreases n
  {
    if n == 0 then items else Volley(there, here, Answers(here, items), n - 1)
  }

  lemma {:induction false} AnswersWellFormed(c: Config, items: seq<Item>)
    requires WellFormed(items)
    ensures WellFormed(Answers(c, items)) && Payload(Answers(c, items)) == []
  {
    if items != [] {
      AnswersWellFormed(c, items[..|items| - 1]);
      AnswerCarriesNoData(c, items[|items| - 1]);
      PayloadConcat(Answers(c, items[..|items| - 1]), Answer(c, items[|items| - 1]));
    }
  }

  lemma AnswerCarriesNoData(c: Config, item: Item)
    ensures WellFormed(Answer(c, item)) && Payload(Answer(c, item)) == []
  {
    hide Payload, Print, Escape;
    NoData(Answer(c, item));
  }

  lemma {:induction false} NoData(items: seq<Item>)
    requires forall i | 0 <= i < |items| :: items[i].Payload() == []
    ensures Payload(items) == []
  {
    if items != [] {
      NoData(items[..|items| - 1]);
    }
  }

  lemma {:induction false} PayloadConcat(x: seq<Item>, y: seq<Item>)
    ensures Payload(x + y) == Payload(x) + Payload(y)
  {
    hide Item.Payload;
    if y == [] {
      assert x + y == x;
    } else {
      PayloadConcat(x, y[..|y| - 1]);
      assert (x + y)[..|x + y| - 1] == x + y[..|y| - 1];
    }
  }

  /** Every message after the first is again a complete stream of items, and none of them carries data. */
  lemma {:induction false} MessageIsVolley(here: End, there: End, items: seq<Item>, n: nat)
    requires here.scan.mode == Normal && there.scan.mode == Normal && WellFormed(items)
    ensures Message(here, there, Print(items), n) == Print(Volley(here.config, there.config, items, n))
    ensures WellFormed(Volley(here.config, there.config, items, n))
    ensures n > 0 ==> Payload(Volley(here.config, there.config, items, n)) == []
    decreases n
  {
    hide Run, Print, Payload, Answers, WellFormed;
    if n > 0 {
      DecodePrinted(here.config, here.scan, items);
      AnswersWellFormed(here.config, items);
      var scan := Run(here.config, here.scan, Print(items)).scan;
      MessageIsVolley(there, here.(scan := scan), Answers(here.config, items), n - 1);
    }
  }

  // ------------------------------------------------------------------
  // How long an item keeps the exchange going
  // ------------------------------------------------------------------

  /** A WILL or DO of an option both sides agree to: each WILL draws a DO and each DO a WILL. */
  predicate Endless(item: Item) {
    item.Verb? && item.verb in {WILL, DO} && item.opt in {OPT_SGA, OPT_BINARY}
  }

  predicate HasEndless(items: seq<Item>) {
    exists i | 0 <= i < |items| :: Endless(items[i])
  }

  /** How many further messages an item that is not endless can cause. */
  function Rank(item: Item): nat {
    match item
    case Verb(v, opt) =>
      if v == WILL then if opt == OPT_ECHO then 2 else 1
      else if v == DO then if opt == OPT_TTYPE || opt == OPT_NAWS then 2 else 1
      else 0
    case Sub(opt, payload) => if opt == OPT_TTYPE && |payload| >= 1 && payload[0] == TTYPE_SEND then 1 else 0
    case _ => 0
  }

  predicate Below(items: seq<Item>, r: int) {
    forall i | 0 <= i < |items| :: !Endless(items[i]) && Rank(items[i]) < r
  }

  lemma AnswerRank(c: Config, item: Item)
    ensures !Endless(item) ==> Below(Answer(c, item), Rank(item))
    ensures Endless(item) ==> HasEndless(Answer(c, item))
  {
    if Endless(item) {
      assert Endless(Answer(c, item)[0]);
    }
  }

  lemma {:induction false} AnswersBelow(c: Config, items: seq<Item>, r: int)
    requires Below(items, r)
    ensures Below(Answers(c, items), r - 1)
  {
    if items != [] {
      AnswersBelow(c, items[..|items| - 1], r);
      AnswerRank(c, items[|items| - 1]);
    }
  }

  lemma {:induction false} AnswersEndless(c: Config, items: seq<Item>)
    requires HasEndless(items)
    ensures HasEndless(Answers(c, items))
  {
    var last := items[|items| - 1];
    var init, more := Answers(c, items[..|items| - 1]), Answer(c, last);
    if Endless(last) {
      AnswerRank(c, last);
      var i :| 0 <= i < |more| && Endless(more[i]);
      assert (init + more)[|init| + i] == more[i];
    } else {
      assert HasEndless(items[..|items| - 1]) by {
        var i :| 0 <= i < |items| && Endless(items[i]);
        assert items[..|items| - 1][i] == items[i];
      }
      AnswersEndless(c, items[..|items| - 1]);
      var i :| 0 <= i < |init| && Endless(init[i]);
      assert (init + more)[i] == init[i];
    }
  }

  lemma BelowNothing(items: seq<Item>, r: int)
    requires Below(items, r) && r <= 0
    ensures items == []
  {
    if items != [] {
      var _ := Rank(items[0]);
      assert false;
    }
  }

  lemma {:induction false} QuietVolley(here: Config, there: Config, items: seq<Item>, r: nat, n: nat)
    requires Below(items, r) && n >= r
    ensures Volley(here, there, items, n) == []
    decreases n
  {
    if r == 0 {
      BelowNothing(items, 0);
    }
    if n > 0 {
      AnswersBelow(here, items, r);
      QuietVolley(there, here, Answers(here, items), if r == 0 then 0 else r - 1, n - 1);
    }
  }

  lemma {:induction false} EndlessVolley(here: Config, there: Config, items: seq<Item>, n: nat)
    requires HasEndless(items)
    ensures HasEndless(Volley(here, there, items, n))
    decreases n
  {
    if n > 0 {
      AnswersEndless(here, items);
      EndlessVolley(there, here, Answers(here, items), n - 1);
    }
  }

  lemma PrintedNotEmpty(items: seq<Item>)
    ensures Print(items) == [] <==> items == []
  {
    if items != [] {
      assert |items[|items| - 1].Print()| > 0;
    }
  }

  /**
   * The exchange started by a complete stream dies out exactly when the stream has no WILL or DO of SGA or BINARY;
   * then at most two replies are non-empty. Otherwise no message is ever empty. RFC 854 asks that a request for a
   * mode already in effect not be acknowledged, which is what would stop the endless case.
   */
  lemma ExchangeStops(here: End, there: End, items: seq<Item>)
    requires here.scan.mode == Normal && there.scan.mode == Normal && WellFormed(items)
    ensures !HasEndless(items) ==> forall n :: n >= 3 ==> Message(here, there, Print(items), n) == []
    ensures HasEndless(items) ==> forall n: nat :: Message(here, there, Print(items), n) != []
  {
    hide Message, Volley, Print, Answers, WellFormed;
    forall n: nat
      ensures !HasEndless(items) && n >= 3 ==> Message(here, there, Print(items), n) == []
      ensures HasEndless(items) ==> Message(here, there, Print(items), n) != []
    {
      MessageIsVolley(here, there, items, n);
      PrintedNotEmpty(Volley(here.config, there.config, items, n));
      if HasEndless(items) {
        EndlessVolley(here.config, there.config, items, n);
      } else if n >= 3 {
        QuietVolley(here.config, there.config, items, 3, n);
      }
    }
  }

  /** The bound is tight: a DO NAWS is answered, and that answer is answered again. */
  lemma TwoRepliesHappen(here: End, there: End)
    requires here.scan.mode == Normal && there.scan.mode == Normal
    ensures var items := [Verb(DO, OPT_NAWS)];
            WellFormed(items) && !HasEndless(items) && Message(here, there, Print(items), 2) != []
  {
    hide Message, Print, Payload, Answers;
    var ask, will, dont := Verb(DO, OPT_NAWS), Verb(WILL, OPT_NAWS), Verb(DONT, OPT_NAWS);
    MessageIsVolley(here, there, [ask], 2);
    var h, t := here.config, there.config;
    AnswersOne(h, ask);
    var size := Sub(OPT_NAWS, SizeBytes(h.cols, h.rows));
    assert Answers(h, [ask]) == [will] + [size];
    AnswersOne(t, will);
    assert Answers(t, [will]) == [dont];
    AppendItem(t, [will], size);
    var second := Answers(t, [will] + [size]);
    assert second == [dont] + Answer(t, size);
    assert Volley(h, t, [ask], 2) == Volley(t, h, [will] + [size], 1) == Volley(h, t, second, 0) == second;
    PrintedNotEmpty(second);
  }

  lemma AnswersOne(c: Config, item: Item)
    ensures Answers(c, [item]) == Answer(c, item)
  {
    hide Answer;
    assert [item][..0] == [];
    assert [] + Answer(c, item) == Answer(c, item);
  }
}
