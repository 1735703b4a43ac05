/**
 The JVS I/O board of mxjvs.c: its state, the commands of one frame and what each
 reports, and the interpreter that runs a frame's payload.
 */
module JvsBoard {
  import opened Bits

  const COINS: nat := 2
  const PLAYERS: nat := 2
  const ANALOGS: nat := 8

  datatype Board = Board(
    address: byte,
    sense: nat,
    test: bool,
    coinPrev: bool,
    sw: seq<nat>,
    coin: seq<nat>,
    analog: seq<nat>)
  {
    /** The 16-bit fields and array sizes of the source. */
    predicate Shaped() {
      && |sw| == PLAYERS && |coin| == COINS && |analog| == ANALOGS
      && (forall i | 0 <= i < PLAYERS :: sw[i] < 0x1_0000)
      && (forall i | 0 <= i < COINS :: coin[i] < 0x1_0000)
      && (forall i | 0 <= i < ANALOGS :: analog[i] < 0x1_0000)
    }
  }

  datatype Input = Input(
    start: bool, service: bool, up: bool, down: bool, left: bool, right: bool, jump: bool, dash: bool, action: bool,
    test: bool, coin: bool, analogX: nat, analogY: nat)

  function PowerOn(): (b: Board)
    ensures b.Shaped()
  {
    Board(0xFF, 1, false, false, [0, 0], [0, 0],
          [0x8000, 0x8000, 0x8000, 0x8000, 0x8000, 0x8000, 0x8000, 0x8000])
  }

  function Flag(on: bool, weight: nat): nat {
    if on then weight else 0
  }

  /** The 13 button bits, start highest. */
  function Buttons(i: Input): (v: nat)
    ensures v < 0x2000
  {
    Flag(i.start, 4096) + Flag(i.service, 2048) + Flag(i.up, 1024) + Flag(i.down, 512) + LowButtons(i)
  }

  function LowButtons(i: Input): (v: nat)
    ensures v < 0x200
  {
    Flag(i.left, 256) + Flag(i.right, 128) + Flag(i.jump, 64) + Flag(i.dash, 32) + Flag(i.action, 16)
  }

  /** A rising edge of the coin switch adds a coin, modulo 2^16. */
  function Sampled(b: Board, i: Input): (r: Board)
    requires b.Shaped() && i.analogX < 0x1_0000 && i.analogY < 0x1_0000
    ensures r.Shaped()
  {
    b.(sw := b.sw[0 := Buttons(i)], test := i.test, analog := b.analog[1 := i.analogX][0 := i.analogY],
       coin := if i.coin && !b.coinPrev then b.coin[0 := (b.coin[0] + 1) % 0x1_0000] else b.coin,
       coinPrev := i.coin)
  }

  // ------------------------------------------------------------ commands

  datatype Cmd =
    | Reset(arg: byte)
    | ChangeComms
    | AssignAddr(a: byte)
    | ReadId
    | CmdVersion
    | JvsVersion
    | CommVersion
    | Features
    | MainId(text: seq<byte>)
    | ReadSw(players: byte, bytes: byte)
    | ReadCoin(slots: byte)
    | ReadAnalog(n: byte)
    | CoinDecrease(slot: byte, hi: byte, lo: byte)
    | Gpio1(data: seq<byte>)
    | Gpio2(g0: byte, g1: byte)
    | Gpio3(g0: byte, g1: byte)
    | Unknown(op: byte)
  {
    predicate Known() { !Unknown? }

    predicate Silent() { Reset? || ChangeComms? }

    predicate Valid() {
      && (MainId? ==> 0 !in text)
      && (Gpio1? ==> |data| < 256)
      && (Unknown? ==> !KnownOp(op))
    }

    function Amount(): nat
      requires CoinDecrease?
    {
      var h: nat := hi;
      h * 256 + lo
    }
  }

  predicate KnownOp(op: byte) {
    op in {0xF0, 0xF1, 0xF2, 0x10, 0x11, 0x12, 0x13, 0x14, 0x15, 0x20, 0x21, 0x22, 0x30, 0x32, 0x37, 0x38}
  }

  /** A command as the game sends it. */
  function Encode(c: Cmd): (w: seq<byte>)
    requires c.Valid()
    ensures |w| >= 1
  {
    match c
    case Reset(arg) => [0xF0, arg]
    case ChangeComms => [0xF2]
    case AssignAddr(a) => [0xF1, a]
    case ReadId => [0x10]
    case CmdVersion => [0x11]
    case JvsVersion => [0x12]
    case CommVersion => [0x13]
    case Features => [0x14]
    case MainId(text) => [0x15] + text + [0]
    case ReadSw(players, bytes) => [0x20, players, bytes]
    case ReadCoin(slots) => [0x21, slots]
    case ReadAnalog(n) => [0x22, n]
    case CoinDecrease(slot, hi, lo) => [0x30, slot, hi, lo]
    case Gpio1(data) => [0x32, |data|] + data
    case Gpio2(g0, g1) => [0x37, g0, g1]
    case Gpio3(g0, g1) => [0x38, g0, g1]
    case Unknown(op) => [op]
  }

  /** SEGA ENTERPRISES,LTD.;I/O BD JVS;837-15067 ;Ver1.00;11/05 */
  function BoardId(): (s: seq<byte>)
    ensures |s| == 57
  {
    BoardName() + [86, 101, 114, 49, 46, 48, 48, 59, 49, 49, 47, 48, 53]
  }

  function BoardName(): (s: seq<byte>)
    ensures |s| == 44
  {
    [83, 69, 71, 65, 32, 69, 78, 84, 69, 82, 80, 82, 73, 83, 69, 83, 44, 76, 84, 68, 46, 59]
    + [73, 47, 79, 32, 66, 68, 32, 74, 86, 83, 59, 56, 51, 55, 45, 49, 53, 48, 54, 55, 32, 59]
  }

  function FeatureList(): (s: seq<byte>)
    ensures |s| == 18
  {
    [1, 1, 2, 14, 0, 2, 2, 0, 0, 3, 8, 0, 0, 0x12, 13, 0, 0, 0]
  }

  /** A 16-bit value, high byte first. */
  function Big16(v: nat): (s: seq<byte>)
    ensures |s| == 2
  {
    [v / 256 % 256, v % 256]
  }

  /** Switch words are left-justified in 16 bits. */
  function SwitchReport(b: Board, players: nat): (s: seq<byte>)
    requires b.Shaped() && players <= PLAYERS
    ensures |s| == 2 * players
  {
    if players == 0 then [] else SwitchReport(b, players - 1) + Big16(b.sw[players - 1] * 8)
  }

  /** Coin counters are reported modulo 2^14. */
  function CoinReport(b: Board, slots: nat): (s: seq<byte>)
    requires b.Shaped()
    decreases slots
  {
    if slots == 0 then []
    else if slots > COINS then CoinReport(b, slots - 1)
    else CoinReport(b, slots - 1) + Big16(b.coin[slots - 1] % 0x4000)
  }

  function AnalogReport(b: Board, n: nat): (s: seq<byte>)
    requires b.Shaped()
    ensures |s| == 2 * n
  {
    if n == 0 then []
    else AnalogReport(b, n - 1) + Big16(if n - 1 < ANALOGS then b.analog[n - 1] else 0x8000)
  }

  /** What a command adds to the reply. */
  function Report(b: Board, c: Cmd): (s: seq<byte>)
    requires b.Shaped()
  {
    match c
    case Reset(_) => []
    case ChangeComms => []
    case AssignAddr(_) => [1]
    case ReadId => [1] + BoardId() + [0]
    case CmdVersion => [1, 0x13]
    case JvsVersion => [1, 0x20]
    case CommVersion => [1, 0x10]
    case Features => FeatureList()
    case MainId(_) => [1]
    case ReadSw(players, bytes) =>
      if players > PLAYERS || bytes != 2 then [3]
      else [1, if b.test then 0x80 else 0] + SwitchReport(b, players)
    case ReadCoin(slots) => [1] + CoinReport(b, slots)
    case ReadAnalog(n) => [1] + AnalogReport(b, n)
    case CoinDecrease(_, _, _) => [1]
    case Gpio1(_) => [1]
    case Gpio2(_, _) => [1]
    case Gpio3(_, _) => [1]
    case Unknown(_) => []
  }

  predicate Accepted(b: Board, c: Cmd)
    requires b.Shaped()
  {
    c.CoinDecrease? && c.slot < COINS && c.Amount() <= b.coin[c.slot]
  }

  /** What a command does to the board. */
  function After(b: Board, c: Cmd): (r: Board)
    requires b.Shaped()
    ensures r.Shaped()
  {
    if c.Reset? then b.(address := 0xFF, sense := 1)
    else if c.AssignAddr? then b.(address := c.a, sense := 0)
    else if Accepted(b, c) then b.(coin := b.coin[c.slot := b.coin[c.slot] - c.Amount()])
    else b
  }

  // ------------------------------------------------------------ reports read back by the game

  /** The 16-bit value at position k of a report. */
  function Word(s: seq<byte>, k: nat): (v: nat)
    requires k + 1 < |s|
  {
    var hi: nat, lo: nat := s[k], s[k + 1];
    hi * 256 + lo
  }

  lemma TwoBytes(v: nat)
    ensures v / 256 % 256 * 256 + v % 256 == v % 0x1_0000
  {
    var q := v / 256;
    DivUnique(v, 0x1_0000, q / 256, v - 0x1_0000 * (q / 256));
  }

  lemma Big16Back(v: nat)
    ensures Word(Big16(v), 0) == v % 0x1_0000
  {
    TwoBytes(v);
  }

  lemma WordAppend(a: seq<byte>, v: nat, k: nat)
    ensures Word(a + Big16(v), |a|) == v % 0x1_0000
    ensures k + 1 < |a| ==> Word(a + Big16(v), k) == Word(a, k)
  {
    hide Big16;
    Big16Back(v);
    var w := a + Big16(v);
    assert w[|a|] == Big16(v)[0] && w[|a| + 1] == Big16(v)[1];
  }

  lemma {:induction false} AnalogBack(b: Board, n: nat, i: nat)
    requires b.Shaped() && i < n
    ensures Word(AnalogReport(b, n), 2 * i) == if i < ANALOGS then b.analog[i] else 0x8000
  {
    hide Big16;
    WordAppend(AnalogReport(b, n - 1), if n - 1 < ANALOGS then b.analog[n - 1] else 0x8000, 2 * i);
    if i < n - 1 { AnalogBack(b, n - 1, i); }
  }

  lemma {:induction false} SwitchBack(b: Board, n: nat, p: nat)
    requires b.Shaped() && p < n <= PLAYERS
    ensures Word(SwitchReport(b, n), 2 * p) == b.sw[p] * 8 % 0x1_0000
  {
    hide Big16;
    WordAppend(SwitchReport(b, n - 1), b.sw[n - 1] * 8, 2 * p);
    if p < n - 1 { SwitchBack(b, n - 1, p); }
  }

  lemma {:induction false} CoinBack(b: Board, slots: nat, c: nat)
    requires b.Shaped() && c < slots && c < COINS
    ensures |CoinReport(b, slots)| == 2 * Min(slots, COINS)
    ensures Word(CoinReport(b, slots), 2 * c) == b.coin[c] % 0x4000
    decreases slots
  {
    hide Big16;
    if slots > COINS {
      CoinBack(b, slots - 1, c);
    } else {
      CoinSize(b, slots - 1);
      WordAppend(CoinReport(b, slots - 1), b.coin[slots - 1] % 0x4000, 2 * c);
      if c < slots - 1 { CoinBack(b, slots - 1, c); }
    }
  }

  lemma {:induction false} CoinSize(b: Board, slots: nat)
    requires b.Shaped()
    ensures |CoinReport(b, slots)| == 2 * Min(slots, COINS)
  {
    if slots > 0 { CoinSize(b, slots - 1); }
  }

  lemma ButtonBits(i: Input)
    ensures var v := Buttons(i);
            && (v / 4096 % 2 == 1 <==> i.start) && (v / 2048 % 2 == 1 <==> i.service) && (v / 1024 % 2 == 1 <==> i.up)
            && (v / 512 % 2 == 1 <==> i.down)
    ensures var v := Buttons(i) % 512; v == LowButtons(i)
  {
    hide LowButtons;
  }

  lemma LowBits(i: Input)
    ensures var v := LowButtons(i);
            && (v / 256 % 2 == 1 <==> i.left) && (v / 128 % 2 == 1 <==> i.right) && (v / 64 % 2 == 1 <==> i.jump)
            && (v / 32 % 2 == 1 <==> i.dash) && (v / 16 % 2 == 1 <==> i.action)
  {
  }

  /** What is sampled is what the game reads: a READ_SW after an input sample reports, in the top 13
      bits of the first player's word, every button as sampled, and the test switch before it; a
      READ_ANALOG reports the two sampled axes. */
  lemma InputReported(b: Board, i: Input, players: byte, n: byte)
    requires b.Shaped() && i.analogX < 0x1_0000 && i.analogY < 0x1_0000
    requires 1 <= players <= 2 && n >= 2
    ensures var r := Report(Sampled(b, i), ReadSw(players, 2));
            && |r| == 2 + 2 * players as int && r[0] == 1 && (r[1] == 0x80 <==> i.test) && Word(r, 2) == 8 * Buttons(i)
    ensures var r := Report(Sampled(b, i), ReadAnalog(n));
            |r| == 1 + 2 * n as int && Word(r, 1) == i.analogY && Word(r, 3) == i.analogX
  {
    hide Buttons, Big16, SwitchReport, AnalogReport;
    var s := Sampled(b, i);
    SwitchBack(s, players, 0);
    AnalogBack(s, n, 0);
    AnalogBack(s, n, 1);
  }

  // ------------------------------------------------------------ parsing a payload

  function Arg(p: seq<byte>, i: nat): byte {
    if i < |p| then p[i] else 0
  }

  function Args(p: seq<byte>, i: nat, n: nat): (a: seq<byte>)
    ensures |a| == n && forall k | 0 <= k < n :: a[k] == Arg(p, i + k)
  {
    if n == 0 then [] else Args(p, i, n - 1) + [Arg(p, i + n - 1)]
  }

  function ZeroAt(p: seq<byte>, i: nat): (k: nat)
    requires i <= |p|
    ensures i <= k <= |p| && (k < |p| ==> p[k] == 0) && forall j | i <= j < k :: p[j] != 0
    decreases |p| - i
  {
    if i == |p| || p[i] == 0 then i else ZeroAt(p, i + 1)
  }

  /** The command at position i of a payload; arguments past its end read as zero. */
  function Parse(p: seq<byte>, i: nat): (c: Cmd)
    requires i < |p|
  {
    var op, x, y, z := p[i], Arg(p, i + 1), Arg(p, i + 2), Arg(p, i + 3);
    if op == 0xF0 then Reset(x)
    else if op == 0xF2 then ChangeComms
    else if op == 0xF1 then AssignAddr(x)
    else if op == 0x10 then ReadId
    else if op == 0x11 then CmdVersion
    else if op == 0x12 then JvsVersion
    else if op == 0x13 then CommVersion
    else if op == 0x14 then Features
    else if op == 0x15 then MainId(p[i + 1..ZeroAt(p, i + 1)])
    else if op == 0x20 then ReadSw(x, y)
    else if op == 0x21 then ReadCoin(x)
    else if op == 0x22 then ReadAnalog(x)
    else if op == 0x30 then CoinDecrease(x, y, z)
    else if op == 0x32 then Gpio1(Args(p, i + 2, x))
    else if op == 0x37 then Gpio2(x, y)
    else if op == 0x38 then Gpio3(x, y)
    else Unknown(op)
  }

  /** Where the command at i ends: an unknown one takes the rest of the payload with it. */
  function Next(p: seq<byte>, i: nat): (n: nat)
    requires i < |p|
    ensures i < n <= |p|
  {
    var op := p[i];
    if op in {0xF0, 0xF1, 0x21, 0x22} then Min(i + 2, |p|)
    else if op in {0xF2, 0x10, 0x11, 0x12, 0x13, 0x14} then i + 1
    else if op == 0x15 then Min(ZeroAt(p, i + 1) + 1, |p|)
    else if op in {0x20, 0x37, 0x38} then Min(i + 3, |p|)
    else if op == 0x30 then Min(i + 4, |p|)
    else if op == 0x32 then Min(i + 2 + Arg(p, i + 1), |p|)
    else |p|
  }

  // ------------------------------------------------------------ running a payload

  const ROOM: nat := 508

  /** Reports are cut off where the reply buffer is full. */
  function Clip(s: seq<byte>): (r: seq<byte>)
    ensures |r| <= ROOM
  {
    s[..Min(|s|, ROOM)]
  }

  /** The state of the interpreter; taken adds up the coins removed from slot 0. */
  datatype Exec = Exec(board: Board, report: seq<byte>, status: byte, silent: bool, taken: nat)

  function Start(b: Board): Exec {
    Exec(b, [], 1, false, 0)
  }

  function Apply(x: Exec, c: Cmd): (r: Exec)
    requires x.board.Shaped()
    ensures r.board.Shaped()
  {
    Exec(After(x.board, c), Clip(x.report + Report(x.board, c)), if c.Unknown? then 2 else x.status,
         x.silent || c.Silent(),
         x.taken + if Accepted(x.board, c) && c.slot == 0 then c.Amount() else 0)
  }

  /** The command loop of mxjvs_handle_frame. */
  function Run(p: seq<byte>, i: nat, x: Exec): (r: Exec)
    requires i <= |p| && x.board.Shaped()
    ensures r.board.Shaped()
    decreases |p| - i
  {
    if i == |p| then x else Run(p, Next(p, i), Apply(x, Parse(p, i)))
  }

  // ------------------------------------------------------------ commands in, reports out

  ghost predicate Holds(p: seq<byte>, i: nat, w: seq<byte>)
  {
    i + |w| <= |p| && p[i..i + |w|] == w
  }

  lemma HoldsSplit(p: seq<byte>, i: nat, u: seq<byte>, w: seq<byte>)
    requires Holds(p, i, u + w)
    ensures Holds(p, i, u) && Holds(p, i + |u|, w)
  {
    assert p[i..i + |u|] == p[i..i + |u + w|][..|u|];
    assert p[i + |u|..i + |u| + |w|] == p[i..i + |u + w|][|u|..];
  }

  lemma HoldsAt(p: seq<byte>, i: nat, w: seq<byte>, k: nat)
    requires Holds(p, i, w) && k < |w|
    ensures i + k < |p| && p[i + k] == w[k] == Arg(p, i + k)
  {
    assert p[i + k] == p[i..i + |w|][k];
  }

  lemma HoldsFits(p: seq<byte>, i: nat, w: seq<byte>)
    requires Holds(p, i, w)
    ensures i + |w| <= |p|
  {
  }

  lemma ParseText(p: seq<byte>, i: nat, text: seq<byte>)
    requires 0 !in text && Holds(p, i, [0x15] + text + [0])
    ensures ZeroAt(p, i + 1) == i + 1 + |text| < |p| && p[i + 1..i + 1 + |text|] == text
  {
    var w := [0x15] + text + [0];
    HoldsAt(p, i, w, |text| + 1);
    forall k | 0 <= k < |text| ensures p[i + 1 + k] == text[k] != 0 {
      HoldsAt(p, i, w, k + 1);
      assert text[k] in text;
    }
    assert p[i + 1..i + 1 + |text|] == text;
  }

  lemma ParseData(p: seq<byte>, i: nat, data: seq<byte>)
    requires |data| < 256 && Holds(p, i, [0x32, |data|] + data)
    ensures p[i] == 0x32 && Arg(p, i + 1) == |data| && i + 2 + |data| <= |p| && Args(p, i + 2, |data|) == data
  {
    hide Arg, Args, Holds;
    var w := [0x32, |data|] + data;
    HoldsAt(p, i, w, 0);
    HoldsAt(p, i, w, 1);
    HoldsFits(p, i, w);
    forall k | 0 <= k < |data| ensures Arg(p, i + 2 + k) == data[k] {
      HoldsAt(p, i, w, k + 2);
    }
  }

  lemma HoldsShort(p: seq<byte>, i: nat, w: seq<byte>)
    requires Holds(p, i, w) && 1 <= |w| <= 4
    ensures i + |w| <= |p| && p[i] == w[0]
    ensures |w| > 1 ==> Arg(p, i + 1) == w[1]
    ensures |w| > 2 ==> Arg(p, i + 2) == w[2]
    ensures |w| > 3 ==> Arg(p, i + 3) == w[3]
  {
    HoldsAt(p, i, w, 0);
    if |w| > 1 { HoldsAt(p, i, w, 1); }
    if |w| > 2 { HoldsAt(p, i, w, 2); }
    if |w| > 3 { HoldsAt(p, i, w, 3); }
  }

  /** A complete command is read back whole, whatever follows it. */
  lemma ParseEncode(p: seq<byte>, i: nat, c: Cmd)
    requires c.Valid() && Holds(p, i, Encode(c))
    ensures i < |p| && Parse(p, i) == c && Next(p, i) == if c.Unknown? then |p| else i + |Encode(c)|
  {
    hide Arg, ZeroAt, Args, Holds;
    var w := Encode(c);
    HoldsAt(p, i, w, 0);
    if c.MainId? {
      ParseText(p, i, c.text);
    } else if c.Gpio1? {
      ParseData(p, i, c.data);
    } else {
      HoldsShort(p, i, w);
    }
  }

  function EncodeAll(cs: seq<Cmd>): (w: seq<byte>)
    requires forall i | 0 <= i < |cs| :: cs[i].Valid()
  {
    if cs == [] then [] else Encode(cs[0]) + EncodeAll(cs[1..])
  }

  function ApplyAll(x: Exec, cs: seq<Cmd>): (r: Exec)
    requires x.board.Shaped()
    ensures r.board.Shaped()
    decreases |cs|
  {
    if cs == [] then x else ApplyAll(Apply(x, cs[0]), cs[1..])
  }

  predicate Proper(cs: seq<Cmd>) {
    forall i | 0 <= i < |cs| :: cs[i].Valid() && cs[i].Known()
  }

  /** Running a payload that starts with complete known commands is applying them in order, then
      going on with the rest. */
  lemma {:induction false} RunCommands(p: seq<byte>, i: nat, x: Exec, cs: seq<Cmd>)
    requires x.board.Shaped() && Proper(cs) && Holds(p, i, EncodeAll(cs))
    ensures i + |EncodeAll(cs)| <= |p|
    ensures Run(p, i, x) == Run(p, i + |EncodeAll(cs)|, ApplyAll(x, cs))
    decreases |cs|
  {
    hide Parse, Next, Apply, Encode;
    if cs != [] {
      HoldsSplit(p, i, Encode(cs[0]), EncodeAll(cs[1..]));
      ParseEncode(p, i, cs[0]);
      RunCommands(p, i + |Encode(cs[0])|, Apply(x, cs[0]), cs[1..]);
    }
  }

  /** Each command's report on the board as the commands before it left it. */
  function Reports(b: Board, cs: seq<Cmd>): (s: seq<byte>)
    requires b.Shaped()
    decreases |cs|
  {
    if cs == [] then [] else Report(b, cs[0]) + Reports(After(b, cs[0]), cs[1..])
  }

  function AfterAll(b: Board, cs: seq<Cmd>): (r: Board)
    requires b.Shaped()
    ensures r.Shaped()
    decreases |cs|
  {
    if cs == [] then b else AfterAll(After(b, cs[0]), cs[1..])
  }

  /** Some command of the frame tells the board not to answer. */
  predicate AnySilent(cs: seq<Cmd>) {
    cs != [] && (cs[0].Silent() || AnySilent(cs[1..]))
  }

  lemma ClipClip(a: seq<byte>, b: seq<byte>, c: seq<byte>)
    ensures Clip(Clip(a + b) + c) == Clip(a + (b + c)) == Clip(a + b + c)
  {
    assert a + (b + c) == a + b + c;
  }

  lemma ClipNothing(a: seq<byte>)
    requires |a| <= ROOM
    ensures Clip(a + []) == a
  {
    assert a + [] == a;
  }

  lemma {:induction false} ApplyReports(x: Exec, cs: seq<Cmd>)
    requires x.board.Shaped() && Proper(cs) && |x.report| <= ROOM
    ensures ApplyAll(x, cs).report == Clip(x.report + Reports(x.board, cs))
    ensures ApplyAll(x, cs).board == AfterAll(x.board, cs) && ApplyAll(x, cs).status == x.status
    ensures ApplyAll(x, cs).silent == (x.silent || AnySilent(cs))
    decreases |cs|
  {
    hide Report, After, Clip;
    if cs == [] {
      ClipNothing(x.report);
    } else {
      ApplyReports(Apply(x, cs[0]), cs[1..]);
      ClipClip(x.report, Report(x.board, cs[0]), Reports(After(x.board, cs[0]), cs[1..]));
    }
  }

  /** A payload of complete known commands reports, in order, what each command reports on the
      evolving board, cut off where the reply buffer is full; the board ends as the commands leave
      it; the status is OK. */
  lemma PayloadReports(b: Board, cs: seq<Cmd>)
    requires b.Shaped() && Proper(cs)
    ensures var x := Run(EncodeAll(cs), 0, Start(b));
            && x.report == Clip(Reports(b, cs)) && x.board == AfterAll(b, cs) && x.status == 1
            && x.silent == AnySilent(cs)
  {
    hide Apply, Parse, Next, EncodeAll, ApplyAll, Reports, AfterAll, AnySilent, Clip;
    var p := EncodeAll(cs);
    assert p[0..0 + |p|] == p;
    RunCommands(p, 0, Start(b), cs);
    ApplyReports(Start(b), cs);
    assert [] + Reports(b, cs) == Reports(b, cs);
  }

  /** An unknown command keeps the reports before it, drops everything after it, and sets status 2. */
  lemma UnknownStops(b: Board, cs: seq<Cmd>, op: byte, rest: seq<byte>)
    requires b.Shaped() && Proper(cs) && !KnownOp(op)
    ensures var x := Run(EncodeAll(cs) + ([op] + rest), 0, Start(b));
            x.report == Clip(Reports(b, cs)) && x.board == AfterAll(b, cs) && x.status == 2
  {
    hide EncodeAll, ApplyAll, Reports, AfterAll, Run, AnySilent, KnownOp, Clip;
    var u := EncodeAll(cs);
    var p := u + ([op] + rest);
    assert p[0..0 + |u|] == u;
    RunCommands(p, 0, Start(b), cs);
    ApplyReports(Start(b), cs);
    assert p[|u|] == op;
    UnknownHere(p, |u|, ApplyAll(Start(b), cs), op);
    assert [] + Reports(b, cs) == Reports(b, cs);
  }

  lemma UnknownHere(p: seq<byte>, i: nat, x: Exec, op: byte)
    requires i < |p| && p[i] == op && !KnownOp(op) && x.board.Shaped() && |x.report| <= ROOM
    ensures Run(p, i, x) == x.(status := 2)
  {
    assert x.report + [] == x.report;
    assert Apply(x, Unknown(op)) == x.(status := 2);
    assert Run(p, |p|, x.(status := 2)) == x.(status := 2);
  }

  // ------------------------------------------------------------ how long the reports are

  /** The length of a command's report, which does not depend on the board. */
  function ReportSize(c: Cmd): nat
  {
    match c
    case Reset(_) => 0
    case ChangeComms => 0
    case Unknown(_) => 0
    case ReadId => 59
    case CmdVersion => 2
    case JvsVersion => 2
    case CommVersion => 2
    case Features => 18
    case ReadSw(players, bytes) => if players > PLAYERS || bytes != 2 then 1 else 2 + 2 * players
    case ReadCoin(slots) => 1 + 2 * Min(slots, COINS)
    case ReadAnalog(n) => 1 + 2 * n
    case _ => 1
  }

  function ReportsSize(cs: seq<Cmd>): nat
  {
    if cs == [] then 0 else ReportSize(cs[0]) + ReportsSize(cs[1..])
  }

  lemma ReportHasSize(b: Board, c: Cmd)
    requires b.Shaped()
    ensures |Report(b, c)| == ReportSize(c)
  {
    hide SwitchReport, CoinReport, AnalogReport, BoardId, FeatureList;
    if c.ReadCoin? { CoinSize(b, c.slots); }
  }

  /** Whoever sends the commands can tell how long the answer will be. */
  lemma {:induction false} ReportsHaveSize(b: Board, cs: seq<Cmd>)
    requires b.Shaped()
    ensures |Reports(b, cs)| == ReportsSize(cs)
    decreases |cs|
  {
    hide Report, ReportSize, After;
    if cs != [] {
      ReportHasSize(b, cs[0]);
      ReportsHaveSize(After(b, cs[0]), cs[1..]);
    }
  }
}
