/**
 Every JVS command in the bytes of the link: what a request frame carrying it does to
 the board and what the board reports, in numbers.
 */
module JvsCommands {
  import opened Bits
  import opened Wrappers
  import opened JvsWire
  import opened JvsBoard
  import opened JvsFrame
  import opened JvsRuns

  // ------------------------------------------------------------ frames in bytes

  lemma SumMore(s: seq<byte>, b: byte)
    ensures ByteSum(s + [b]) == ByteSum(s) + b
  {
    assert (s + [b])[..|s|] == s;
  }

  lemma {:induction false} SumJoin(a: seq<byte>, b: seq<byte>)
    ensures ByteSum(a + b) == ByteSum(a) + ByteSum(b)
  {
    if b == [] {
      assert a + b == a;
    } else {
      var n := |b| - 1;
      SumJoin(a, b[..n]);
      assert (a + b)[..|a + b| - 1] == a + b[..n];
    }
  }

  lemma SumThree(a: byte, b: byte, c: byte)
    ensures ByteSum([a]) == a && ByteSum([a, b]) == a + b && ByteSum([a, b, c]) == a + b + c
  {
    var none: seq<byte> := [];
    assert [a][..0] == none && [a, b][..1] == [a] && [a, b, c][..2] == [a, b];
  }

  /** A request: sync, address, length, payload, and the sum of all but the sync byte. */
  lemma RequestLiterally(node: byte, p: seq<byte>, sum: byte)
    requires |p| <= 254 && sum == (node + |p| + 1 + ByteSum(p)) % 256
    ensures Request(node, p) == [0xE0, node, |p| + 1] + p + [sum]
  {
    hide ByteSum, Request;
    RequestShape(node, p);
    CheckByte(node, p, sum);
    Around(node, |p| + 1, p, sum);
  }

  lemma CheckByte(node: byte, p: seq<byte>, sum: byte)
    requires |p| <= 254 && sum == (node + |p| + 1 + ByteSum(p)) % 256
    ensures ByteSum([node, |p| + 1] + p) % 256 == sum
  {
    hide ByteSum;
    HeadSum(node, p);
  }

  lemma Around(node: byte, len: byte, p: seq<byte>, sum: byte)
    ensures [0xE0] + ([node, len] + p) + [sum] == [0xE0, node, len] + p + [sum]
  {
    assert [0xE0] + ([node, len] + p) == [0xE0, node, len] + p;
  }

  lemma RequestShape(node: byte, p: seq<byte>)
    requires |p| <= 254
    ensures Request(node, p) == [0xE0] + ([node, |p| + 1] + p) + [ByteSum([node, |p| + 1] + p) % 256]
  {
    hide ByteSum;
  }

  lemma HeadSum(node: byte, p: seq<byte>)
    requires |p| <= 254
    ensures ByteSum([node, |p| + 1] + p) == node + |p| + 1 + ByteSum(p)
  {
    hide ByteSum;
    SumThree(node, |p| + 1, 0);
    SumJoin([node, |p| + 1], p);
  }

  /** A reply: sync, the master's address 0, length, status, reports, and the sum of all but the sync byte. */
  lemma ReplyLiterally(x: Exec)
    requires |x.report| <= 253
    ensures Reply(x) == [0xE0, 0x00, |x.report| + 2, x.status] + x.report
                        + [(|x.report| + 2 + x.status + ByteSum(x.report)) % 256]
  {
    hide ByteSum;
    SumThree(0, |x.report| + 2, x.status);
    SumJoin([0, |x.report| + 2, x.status], x.report);
    assert ReplyBody(x)[1..] == [0, |x.report| + 2, x.status] + x.report;
  }

  /** On the link 0xE0 and 0xD0 become 0xD0 0xDF and 0xD0 0xCF. */
  lemma StuffLiterally(b: byte)
    ensures Stuff(b) == if b == 0xE0 then [0xD0, 0xDF] else if b == 0xD0 then [0xD0, 0xCF] else [b]
  {
  }

  lemma MaskedLiterally()
    ensures Masked([0xE0, 1, 0xE0, 0xD0, 5]) == [0xE0, 1, 0xD0, 0xDF, 0xD0, 0xCF, 5]
    ensures Unmasked([0xE0, 1, 0xD0, 0xDF, 0xD0, 0xCF, 5]) == Some([0xE0, 1, 0xE0, 0xD0, 5])
  {
    var raw: seq<byte> := [0xE0, 1, 0xE0, 0xD0, 5];
    hide MaskTail, Masked, Stuff;
    StuffLiterally(1);
    StuffLiterally(0xE0);
    StuffLiterally(0xD0);
    StuffLiterally(5);
    MaskFirst(raw);
    MaskStep(raw, 1);
    MaskStep(raw, 2);
    MaskStep(raw, 3);
    MaskStep(raw, 4);
    assert raw[..5] == raw;
    UnmaskMask(raw);
  }

  /** The reaction to a request frame whose reports and board are given. */
  predicate Does(r: Reaction, report: seq<byte>, after: Board) {
    r.Ran? && r.x.report == report && r.x.board == after && r.x.status == 1 && !r.x.silent
  }

  /** An accepted request runs its payload. */
  lemma Asks(b: Board, node: byte, p: seq<byte>)
    requires b.Shaped() && 1 <= |p| <= 254
    ensures React(b, Masked(Request(node, p))) == Ran(Run(p, 0, Start(b)))
  {
    hide Run, Masked, Unmasked, Request, ByteSum, Accepts, Payload;
    RequestAccepted(node, p);
    UnmaskMask(Request(node, p));
  }

  /** A payload of one command. */
  lemma OneRuns(b: Board, p: seq<byte>)
    requires b.Shaped() && p != [] && Next(p, 0) == |p|
    ensures Run(p, 0, Start(b)) == Apply(Start(b), Parse(p, 0))
  {
    hide Parse, Apply, Next;
  }

  lemma ClipShort(s: seq<byte>)
    requires |s| <= 508
    ensures Clip([] + s) == s
  {
    assert [] + s == s;
  }

  /** What one command of a given meaning does when asked for. */
  lemma Single(b: Board, node: byte, p: seq<byte>, c: Cmd)
    requires b.Shaped() && 1 <= |p| <= 254 && Next(p, 0) == |p| && Parse(p, 0) == c && |Report(b, c)| <= 508
    ensures var r := React(b, Masked(Request(node, p)));
            r.Ran? && r.x.report == Report(b, c) && r.x.board == After(b, c) && r.x.silent == c.Silent()
            && r.x.status == if c.Unknown? then 2 else 1
  {
    hide Parse, Next, Report, After, Masked, Request, Clip;
    Asks(b, node, p);
    OneRuns(b, p);
    ClipShort(Report(b, c));
  }

  // ------------------------------------------------------------ identification

  lemma IdBytes()
    ensures BoardId() == Ascii("SEGA ENTERPRISES,LTD.;I/O BD JVS;837-15067 ;Ver1.00;11/05")
  {
    hide Ascii, BoardName;
    NameBytes();
    VersionBytes();
    AsciiJoin("SEGA ENTERPRISES,LTD.;I/O BD JVS;837-15067 ;", "Ver1.00;11/05");
    assert "SEGA ENTERPRISES,LTD.;I/O BD JVS;837-15067 ;" + "Ver1.00;11/05"
        == "SEGA ENTERPRISES,LTD.;I/O BD JVS;837-15067 ;Ver1.00;11/05";
  }

  lemma MakerBytes()
    ensures Ascii("SEGA ENTERPRISES,LTD.;") ==
      [83, 69, 71, 65, 32, 69, 78, 84, 69, 82, 80, 82, 73, 83, 69, 83, 44, 76, 84, 68, 46, 59]
  {
  }

  lemma TypeBytes()
    ensures Ascii("I/O BD JVS;837-15067 ;") ==
      [73, 47, 79, 32, 66, 68, 32, 74, 86, 83, 59, 56, 51, 55, 45, 49, 53, 48, 54, 55, 32, 59]
  {
  }

  lemma AsciiJoin(a: string, b: string)
    ensures Ascii(a + b) == Ascii(a) + Ascii(b)
  {
  }

  lemma NameBytes()
    ensures BoardName() == Ascii("SEGA ENTERPRISES,LTD.;I/O BD JVS;837-15067 ;")
  {
    hide Ascii;
    MakerBytes();
    TypeBytes();
    AsciiJoin("SEGA ENTERPRISES,LTD.;", "I/O BD JVS;837-15067 ;");
    assert "SEGA ENTERPRISES,LTD.;" + "I/O BD JVS;837-15067 ;" == "SEGA ENTERPRISES,LTD.;I/O BD JVS;837-15067 ;";
  }

  lemma VersionBytes()
    ensures Ascii("Ver1.00;11/05") == [86, 101, 114, 49, 46, 48, 48, 59, 49, 49, 47, 48, 53]
  {
  }

  /** Commands 0x10 to 0x14: who the board is, its three versions, and what it has: 2 players of 14
      buttons, 2 coin slots, 8 analog channels and 13 outputs. */
  lemma Identifies(b: Board, node: byte)
    requires b.Shaped()
    ensures Does(React(b, Masked(Request(node, [0x10]))),
                 [1] + Ascii("SEGA ENTERPRISES,LTD.;I/O BD JVS;837-15067 ;Ver1.00;11/05") + [0], b)
    ensures Does(React(b, Masked(Request(node, [0x11]))), [1, 0x13], b)
    ensures Does(React(b, Masked(Request(node, [0x12]))), [1, 0x20], b)
    ensures Does(React(b, Masked(Request(node, [0x13]))), [1, 0x10], b)
    ensures Does(React(b, Masked(Request(node, [0x14]))),
                 [1, 1, 2, 14, 0, 2, 2, 0, 0, 3, 8, 0, 0, 0x12, 13, 0, 0, 0], b)
  {
    hide Masked, Request, BoardId, React, Does, Ascii, FeatureList;
    IdBytes();
    Simple(b, node, 0x10, ReadId);
    Simple(b, node, 0x11, CmdVersion);
    Simple(b, node, 0x12, JvsVersion);
    Simple(b, node, 0x13, CommVersion);
    Simple(b, node, 0x14, Features);
    FeatureBytes();
  }

  lemma FeatureBytes()
    ensures FeatureList() == [1, 1, 2, 14, 0, 2, 2, 0, 0, 3, 8, 0, 0, 0x12, 13, 0, 0, 0]
  {
  }

  /** A command of a single byte. */
  lemma Simple(b: Board, node: byte, op: byte, c: Cmd)
    requires b.Shaped() && op in {0x10, 0x11, 0x12, 0x13, 0x14}
    requires c == if op == 0x10 then ReadId else if op == 0x11 then CmdVersion else if op == 0x12 then JvsVersion
                  else if op == 0x13 then CommVersion else Features
    ensures Does(React(b, Masked(Request(node, [op]))), Report(b, c), b)
  {
    hide Masked, Request, React, BoardId, FeatureList;
    Single(b, node, [op], c);
  }

  // ------------------------------------------------------------ addressing and silence

  /** 0xF1 assigns the address and ends sensing; 0xF0 and 0xF2 are not answered, and 0xF0 takes the
      address back. */
  lemma Addresses(b: Board, node: byte, a: byte)
    requires b.Shaped()
    ensures Does(React(b, Masked(Request(node, [0xF1, a]))), [1], b.(address := a, sense := 0))
    ensures var r := React(b, Masked(Request(node, [0xF0, a])));
            r.Ran? && r.x.silent && r.x.board == b.(address := 255, sense := 1)
    ensures var r := React(b, Masked(Request(node, [0xF2])));
            r.Ran? && r.x.silent && r.x.board == b
  {
    hide Masked, Request, React;
    Single(b, node, [0xF1, a], AssignAddr(a));
    Single(b, node, [0xF0, a], Reset(a));
    Single(b, node, [0xF2], ChangeComms);
  }

  // ------------------------------------------------------------ inputs read back

  lemma Big16Literally(v: nat)
    requires v < 0x1_0000
    ensures Big16(v) == [v / 256, v % 256]
    ensures Big16(v % 0x4000) == [v / 256 % 64, v % 256]
  {
    Fourteen(v);
    assert v / 256 % 64 % 256 == v / 256 % 64;
  }

  lemma JustifiedLiterally(v: nat)
    requires v < 0x2000
    ensures Big16(v * 8) == [v / 32, v % 32 * 8]
  {
    DivUnique(v * 8, 256, v / 32, v % 32 * 8);
  }

  lemma Fourteen(v: nat)
    ensures v % 0x4000 / 256 == v / 256 % 64 && v % 0x4000 % 256 == v % 256
  {
    var q := v / 256;
    var k := q / 64;
    DivUnique(v, 0x4000, k, q % 64 * 256 + v % 256);
    DivUnique(q % 64 * 256 + v % 256, 256, q % 64, v % 256);
  }

  lemma SwitchBytes(b: Board)
    requires b.Shaped() && b.sw[0] < 0x2000 && b.sw[1] < 0x2000
    ensures SwitchReport(b, 0) == [] && SwitchReport(b, 1) == [b.sw[0] / 32, b.sw[0] % 32 * 8]
    ensures SwitchReport(b, 2) == [b.sw[0] / 32, b.sw[0] % 32 * 8, b.sw[1] / 32, b.sw[1] % 32 * 8]
  {
    hide Big16;
    JustifiedLiterally(b.sw[0]);
    JustifiedLiterally(b.sw[1]);
  }

  /** 0x20 with a number of players and bytes per player: the test switch and, for up to two players of
      two bytes, their 13 switch bits left-justified; anything else is an invalid parameter. */
  lemma ReadsSwitches(b: Board, node: byte, players: byte, bytes: byte)
    requires b.Shaped() && b.sw[0] < 0x2000 && b.sw[1] < 0x2000
    ensures Does(React(b, Masked(Request(node, [0x20, players, bytes]))),
                 if players > 2 || bytes != 2 then [3]
                 else [1, if b.test then 0x80 else 0]
                      + (if players == 0 then []
                         else if players == 1 then [b.sw[0] / 32, b.sw[0] % 32 * 8]
                         else [b.sw[0] / 32, b.sw[0] % 32 * 8, b.sw[1] / 32, b.sw[1] % 32 * 8]), b)
  {
    hide Masked, Request, React, SwitchReport;
    SwitchBytes(b);
    Single(b, node, [0x20, players, bytes], ReadSw(players, bytes));
  }

  lemma CoinBytes(b: Board, slots: nat)
    requires b.Shaped()
    ensures CoinReport(b, slots)
            == if slots == 0 then []
               else if slots == 1 then [b.coin[0] / 256 % 64, b.coin[0] % 256]
               else [b.coin[0] / 256 % 64, b.coin[0] % 256, b.coin[1] / 256 % 64, b.coin[1] % 256]
  {
    hide Big16;
    Big16Literally(b.coin[0]);
    Big16Literally(b.coin[1]);
    if slots > 2 { CoinsEnd(b, slots); }
    var none: seq<byte> := [];
    assert CoinReport(b, 0) == none;
    assert CoinReport(b, 1) == none + Big16(b.coin[0] % 0x4000);
    assert CoinReport(b, 2) == CoinReport(b, 1) + Big16(b.coin[1] % 0x4000);
  }

  /** 0x21 with a number of slots: for each of the two slots there are, the low 14 bits of its counter. */
  lemma ReadsCoins(b: Board, node: byte, slots: byte)
    requires b.Shaped()
    ensures Does(React(b, Masked(Request(node, [0x21, slots]))),
                 [1] + (if slots == 0 then []
                        else if slots == 1 then [b.coin[0] / 256 % 64, b.coin[0] % 256]
                        else [b.coin[0] / 256 % 64, b.coin[0] % 256, b.coin[1] / 256 % 64, b.coin[1] % 256]), b)
  {
    hide Masked, Request, React, CoinReport;
    CoinBytes(b, slots);
    Single(b, node, [0x21, slots], ReadCoin(slots));
  }

  lemma {:induction false} AnalogBytes(b: Board, n: nat, i: nat)
    requires b.Shaped() && i < n
    ensures var v := if i < 8 then b.analog[i] else 0x8000;
            AnalogReport(b, n)[2 * i] == v / 256 && AnalogReport(b, n)[2 * i + 1] == v % 256
  {
    hide Big16;
    Big16Literally(if n - 1 < 8 then b.analog[n - 1] else 0x8000);
    if i < n - 1 { AnalogBytes(b, n - 1, i); }
  }

  /** 0x22 with a number of channels: each of the first eight as sampled, high byte first, and 0x8000 for
      every other. */
  lemma ReadsAnalogs(b: Board, node: byte, n: byte, i: nat)
    requires b.Shaped() && i < n
    ensures var r := React(b, Masked(Request(node, [0x22, n])));
            && r.Ran? && r.x.board == b && r.x.status == 1 && !r.x.silent
            && |r.x.report| == Min(1 + 2 * n as int, 508) && r.x.report[0] == 1
            && (2 + 2 * i < 508 ==>
                  var v := if i < 8 then b.analog[i] else 0x8000;
                  r.x.report[1 + 2 * i] == v / 256 && r.x.report[2 + 2 * i] == v % 256)
  {
    hide Masked, Request, AnalogReport, React, Run, Apply, Parse, Next;
    var p := [0x22, n];
    Asks(b, node, p);
    ParseAnalog(n);
    OneRuns(b, p);
    AnalogApplied(b, n);
    AnalogBytes(b, n, i);
    var full := [1] + AnalogReport(b, n);
    assert full[1 + 2 * i] == AnalogReport(b, n)[2 * i] && full[2 + 2 * i] == AnalogReport(b, n)[2 * i + 1];
  }

  lemma ParseAnalog(n: byte)
    ensures Parse([0x22, n], 0) == ReadAnalog(n) && Next([0x22, n], 0) == 2
  {
  }

  lemma AnalogApplied(b: Board, n: byte)
    requires b.Shaped()
    ensures var x := Apply(Start(b), ReadAnalog(n)); var full := [1] + AnalogReport(b, n);
            && x.board == b && x.status == 1 && !x.silent && x.report == full[..Min(|full|, 508)]
  {
    hide AnalogReport;
    var full := [1] + AnalogReport(b, n);
    assert [] + full == full;
  }

  // ------------------------------------------------------------ coins

  /** 0x30 with a slot and an amount, high byte first: the counter goes down by the amount if the slot is
      one of the two and holds that much, and nothing else ever changes. */
  lemma DecreasesCoins(b: Board, node: byte, slot: byte, n: nat)
    requires b.Shaped() && n < 65536
    ensures Does(React(b, Masked(Request(node, [0x30, slot, n / 256, n % 256]))), [1],
                 if slot < 2 && n <= b.coin[slot] then b.(coin := b.coin[slot := b.coin[slot] - n]) else b)
  {
    hide Masked, Request, React;
    var c := CoinDecrease(slot, n / 256, n % 256);
    assert c.Amount() == n;
    Single(b, node, [0x30, slot, n / 256, n % 256], c);
  }

  /** How often the coin switch closes in a series of events, given how it was before. */
  function Edges(closed: bool, es: seq<Event>): nat
    decreases |es|
  {
    if es == [] then 0
    else match es[0]
      case Sample(i) => (if i.coin && !closed then 1 else 0) + Edges(i.coin, es[1..])
      case Frame(_) => Edges(closed, es[1..])
  }

  lemma {:induction false} RunKeepsSwitch(p: seq<byte>, i: nat, x: Exec)
    requires i <= |p| && x.board.Shaped()
    ensures Run(p, i, x).board.coinPrev == x.board.coinPrev
    decreases |p| - i
  {
    hide Parse, Next, Report, Clip;
    if i < |p| { RunKeepsSwitch(p, Next(p, i), Apply(x, Parse(p, i))); }
  }

  lemma AdvanceEdges(l: Ledger, e: Event)
    requires l.board.Shaped() && ValidEvent(e)
    ensures Advance(l, e).inserted == l.inserted + Edges(l.board.coinPrev, [e])
    ensures Advance(l, e).board.coinPrev == if e.Sample? then e.i.coin else l.board.coinPrev
  {
    hide Run, Unmasked, ByteSum, Buttons;
    assert [e][1..] == [];
    if e.Frame? && React(l.board, e.input).Ran? {
      RunKeepsSwitch(Payload(Unmasked(e.input).value), 0, Start(l.board));
    }
  }

  /** The coins inserted over a run are the times the coin switch closed in it. */
  lemma {:induction false} InsertedIs(l: Ledger, es: seq<Event>)
    requires l.board.Shaped() && ValidEvents(es)
    ensures Play(l, es).inserted == l.inserted + Edges(l.board.coinPrev, es)
    decreases |es|
  {
    hide Advance;
    if es != [] {
      assert ValidEvent(es[0]);
      AdvanceEdges(l, es[0]);
      InsertedIs(Advance(l, es[0]), es[1..]);
      assert [es[0]][1..] == [];
    }
  }

  /** Over samples alone nothing is taken. */
  lemma {:induction false} NothingTaken(l: Ledger, es: seq<Event>)
    requires l.board.Shaped() && ValidEvents(es) && forall k | 0 <= k < |es| :: es[k].Sample?
    ensures Play(l, es).taken == l.taken
    decreases |es|
  {
    if es != [] {
      assert es[0].Sample? && ValidEvent(es[0]);
      NothingTaken(Advance(l, es[0]), es[1..]);
    }
  }

  /** After any samples in which the coin switch closes k times from power-on the counter is k... */
  lemma CoinsCounted(es: seq<Event>)
    requires ValidEvents(es) && (forall k | 0 <= k < |es| :: es[k].Sample?) && Edges(false, es) < 65536
    ensures Play(Ledger(PowerOn(), 0, 0), es).board.coin[0] == Edges(false, es)
  {
    hide Play, Edges;
    CoinsConserved(es);
    InsertedIs(Ledger(PowerOn(), 0, 0), es);
    NothingTaken(Ledger(PowerOn(), 0, 0), es);
  }

  /** ... and a decrease of k spends every one of these coins. */
  lemma AllCoinsSpent(es: seq<Event>, node: byte)
    requires ValidEvents(es) && (forall k | 0 <= k < |es| :: es[k].Sample?) && Edges(false, es) < 65536
    ensures var k, b := Edges(false, es), Play(Ledger(PowerOn(), 0, 0), es).board;
            Does(React(b, Masked(Request(node, [0x30, 0, k / 256, k % 256]))), [1], b.(coin := b.coin[0 := 0]))
  {
    hide Play, Edges, Masked, Request, React, Does;
    CoinsCounted(es);
    DecreasesCoins(Play(Ledger(PowerOn(), 0, 0), es).board, node, 0, Edges(false, es));
  }

  // ------------------------------------------------------------ acknowledged and unknown commands

  /** 0x15 with a text ending in zero and 0x32 with counted data are only acknowledged... */
  lemma AcknowledgesText(b: Board, node: byte, text: seq<byte>)
    requires b.Shaped() && 0 !in text && |text| <= 252
    ensures Does(React(b, Masked(Request(node, [0x15] + text + [0]))), [1], b)
  {
    hide Masked, Request, React, Parse, Next;
    WholeCommand([0x15] + text + [0], MainId(text));
    Single(b, node, [0x15] + text + [0], MainId(text));
  }

  lemma AcknowledgesData(b: Board, node: byte, data: seq<byte>)
    requires b.Shaped() && |data| <= 252
    ensures Does(React(b, Masked(Request(node, [0x32, |data|] + data))), [1], b)
  {
    hide Masked, Request, React, Parse, Next;
    WholeCommand([0x32, |data|] + data, Gpio1(data));
    Single(b, node, [0x32, |data|] + data, Gpio1(data));
  }

  /** ... and so are 0x37 and 0x38 with two bytes. */
  lemma AcknowledgesOutputs(b: Board, node: byte, x: byte, y: byte)
    requires b.Shaped()
    ensures Does(React(b, Masked(Request(node, [0x37, x, y]))), [1], b)
    ensures Does(React(b, Masked(Request(node, [0x38, x, y]))), [1], b)
  {
    hide Masked, Request, React, Parse, Next;
    WholeCommand([0x37, x, y], Gpio2(x, y));
    WholeCommand([0x38, x, y], Gpio3(x, y));
    Single(b, node, [0x37, x, y], Gpio2(x, y));
    Single(b, node, [0x38, x, y], Gpio3(x, y));
  }

  lemma WholeCommand(p: seq<byte>, c: Cmd)
    requires c.Valid() && c.Known() && p == Encode(c)
    ensures Parse(p, 0) == c && Next(p, 0) == |p|
  {
    hide Parse, Next, Encode;
    assert p[0..0 + |p|] == p;
    ParseEncode(p, 0, c);
  }

  /** Arguments missing at the end of a payload count as zero: an address, an amount... */
  lemma MissingArgument(b: Board, node: byte, slot: byte, hi: byte)
    requires b.Shaped()
    ensures Does(React(b, Masked(Request(node, [0xF1]))), [1], b.(address := 0, sense := 0))
    ensures Does(React(b, Masked(Request(node, [0x30, slot, hi]))), [1],
                 if slot < 2 && hi as nat * 256 <= b.coin[slot] then b.(coin := b.coin[slot := b.coin[slot] - hi as nat * 256])
                 else b)
  {
    hide Masked, Request, React;
    Single(b, node, [0xF1], AssignAddr(0));
    Single(b, node, [0x30, slot, hi], CoinDecrease(slot, hi, 0));
  }

  /** ... a size... */
  lemma MissingSize(b: Board, node: byte, players: byte)
    requires b.Shaped()
    ensures Does(React(b, Masked(Request(node, [0x20, players]))), [3], b)
  {
    hide Masked, Request, React, SwitchReport;
    Single(b, node, [0x20, players], ReadSw(players, 0));
  }

  /** ... and how many are asked for. */
  lemma MissingCount(b: Board, node: byte)
    requires b.Shaped()
    ensures Does(React(b, Masked(Request(node, [0x21]))), [1], b) && Does(React(b, Masked(Request(node, [0x22]))), [1], b)
  {
    hide Masked, Request, React;
    Single(b, node, [0x21], ReadCoin(0));
    Single(b, node, [0x22], ReadAnalog(0));
  }

  /** Any other byte where a command should be ends the payload with status 2 and no report. */
  lemma Refuses(b: Board, node: byte, op: byte, rest: seq<byte>)
    requires b.Shaped() && |rest| <= 253
    requires op !in {0x10, 0x11, 0x12, 0x13, 0x14, 0x15, 0x20, 0x21, 0x22, 0x30, 0x32, 0x37, 0x38, 0xF0, 0xF1, 0xF2}
    ensures var r := React(b, Masked(Request(node, [op] + rest)));
            r.Ran? && r.x.report == [] && r.x.board == b && r.x.status == 2 && !r.x.silent
  {
    hide Masked, Request, React;
    Single(b, node, [op] + rest, Unknown(op));
  }

  // ------------------------------------------------------------ whole frames

  /** A frame and its answer, byte by byte: the board at address 1 is asked for the version of its
      command set. */
  lemma FrameExample()
    ensures var b := PowerOn().(address := 1, sense := 0);
            var r := React(b, [0xE0, 0x01, 0x02, 0x11, 0x14]);
            r.Ran? && Masked(Reply(r.x)) == [0xE0, 0x00, 0x04, 0x01, 0x01, 0x13, 0x19]
  {
    hide React, ByteSum, Masked, Reply, Request;
    var b := PowerOn().(address := 1, sense := 0);
    RequestExample();
    PlainMask([0xE0, 0x01, 0x02, 0x11, 0x14]);
    Simple(b, 1, 0x11, CmdVersion);
    ReplyExample(React(b, [0xE0, 0x01, 0x02, 0x11, 0x14]).x);
    PlainMask([0xE0, 0x00, 0x04, 0x01, 0x01, 0x13, 0x19]);
  }

  lemma RequestExample()
    ensures Request(1, [0x11]) == [0xE0, 0x01, 0x02, 0x11, 0x14]
  {
    hide ByteSum, Request;
    SumThree(0x11, 0, 0);
    RequestLiterally(1, [0x11], 0x14);
  }

  lemma ReplyExample(x: Exec)
    requires x.report == [1, 0x13] && x.status == 1
    ensures Reply(x) == [0xE0, 0x00, 0x04, 0x01, 0x01, 0x13, 0x19]
  {
    hide ByteSum, Reply;
    SumThree(1, 0x13, 0);
    ReplyLiterally(x);
  }

  lemma {:induction false} PlainTail(raw: seq<byte>)
    requires forall i | 0 <= i < |raw| :: raw[i] != 0xE0 && raw[i] != 0xD0
    ensures MaskTail(raw) == raw
  {
    if raw != [] {
      PlainTail(raw[..|raw| - 1]);
      assert raw == raw[..|raw| - 1] + [raw[|raw| - 1]];
    }
  }

  lemma PlainMask(raw: seq<byte>)
    requires raw != [] && forall i | 1 <= i < |raw| :: raw[i] != 0xE0 && raw[i] != 0xD0
    ensures Masked(raw) == raw
  {
    hide MaskTail;
    PlainTail(raw[1..]);
  }

  // ------------------------------------------------------------ damaged frames

  lemma {:induction false} SumChange(s: seq<byte>, k: nat, b: byte)
    requires k < |s|
    ensures ByteSum(s[k := b]) == ByteSum(s) - s[k] + b
  {
    var n := |s| - 1;
    if k < n {
      SumChange(s[..n], k, b);
      assert s[k := b][..n] == s[..n][k := b];
    } else {
      assert s[k := b][..n] == s[..n];
    }
  }

  lemma OtherResidue(t: nat, a: byte, b: byte)
    requires a != b && t >= a
    ensures (t - a + b) % 256 != t % 256
  {
    if (t - a + b) % 256 == t % 256 {
      var q, p := t / 256, (t - a + b) / 256;
      assert 256 * (p - q) == b - a;
      ZeroMultiple(256, p - q);
      assert false;
    }
  }

  /** The frames accepted are the requests, whatever follows them, and, of at least five bytes, those of
      length and node 0. */
  lemma AcceptedIs(raw: seq<byte>)
    ensures |raw| < 5 ==> !Accepts(raw)
    ensures |raw| >= 5 && raw[2] == 0 ==> (Accepts(raw) <==> raw[0] == 0xE0 && raw[1] == 0)
    ensures |raw| >= 5 && raw[2] > 0 ==>
              (Accepts(raw) <==> 3 + raw[2] as int <= |raw| && raw[..3 + raw[2]] == Request(raw[1], raw[3..2 + raw[2]]))
  {
    hide ByteSum, Request;
    if |raw| >= 5 && 3 + raw[2] as int <= |raw| {
      var n: nat := raw[2];
      if n == 0 {
        SumThree(raw[1], 0, 0);
        assert raw[1..2] == [raw[1]];
      } else {
        var p := raw[3..2 + n];
        var w := raw[1..2 + n];
        RequestShape(raw[1], p);
        assert w == [raw[1], |p| + 1] + p;
        var e := [0xE0] + w + [ByteSum(w) % 256];
        assert raw[..3 + n] == [raw[0]] + w + [raw[2 + n]];
        assert e[0] == 0xE0 && e[2 + n] == ByteSum(w) % 256;
        assert raw[..3 + n][0] == raw[0] && raw[..3 + n][2 + n] == raw[2 + n];
      }
    }
  }

  /** Of the frames accepted, those of at most 512 bytes are run. */
  lemma ReactsIff(b: Board, raw: seq<byte>)
    requires b.Shaped() && raw != []
    ensures React(b, Masked(raw)).Ran? <==> |raw| <= 512 && Accepts(raw)
  {
    hide Run, Masked, Unmasked, ByteSum, Accepts, Payload;
    UnmaskMask(raw);
  }

  /** Changing the sync byte, or any one byte up to the checksum but the length, of an accepted frame
      makes it be rejected. */
  lemma OneByteRejected(raw: seq<byte>, k: nat, b: byte)
    requires Accepts(raw) && k <= 2 + raw[2] as int && k != 2 && b != raw[k]
    ensures !Accepts(raw[k := b])
  {
    hide ByteSum;
    var n := 2 + raw[2] as int;
    var t, s := raw[1..n], raw[k := b][1..n];
    if 1 <= k < n {
      assert s == t[k - 1 := b];
      SumChange(t, k - 1, b);
      SumAtLeast(t, k - 1);
      OtherResidue(ByteSum(t), raw[k], b);
    } else if k == n {
      assert s == t;
    }
  }

  lemma {:induction false} SumAtLeast(s: seq<byte>, k: nat)
    requires k < |s|
    ensures ByteSum(s) >= s[k]
  {
    if k < |s| - 1 { SumAtLeast(s[..|s| - 1], k); }
  }

  /** The board as it is switched on. */
  lemma PowerOnLiterally(i: nat)
    ensures var b := PowerOn();
            && b.address == 255 && b.sense == 1 && !b.test && !b.coinPrev && b.sw == [0, 0] && b.coin == [0, 0]
            && |b.analog| == 8 && (i < 8 ==> b.analog[i] == 0x8000)
  {
  }
}
