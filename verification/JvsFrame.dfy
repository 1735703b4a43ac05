/**
 Whole JVS exchanges: mxjvs_init, mxjvs_set_input and mxjvs_handle_frame as the
 methods of a board object, the check a frame must pass, the reply, and what
 holds over every run of input samples and frames.
 */
module JvsFrame {
  import opened Bits
  import opened Wrappers
  import opened JvsWire
  import opened JvsBoard

  // ------------------------------------------------------------ frames

  /** The handler's test on an unmasked frame: sync byte, length, checksum. */
  predicate Accepts(raw: seq<byte>) {
    && |raw| >= 5 && raw[0] == SYNC && 3 + raw[2] as int <= |raw|
    && ByteSum(raw[1..2 + raw[2]]) % 256 == raw[2 + raw[2]]
  }

  /** The bytes between the length byte and the checksum. */
  function Payload(raw: seq<byte>): seq<byte>
    requires Accepts(raw)
  {
    if raw[2] == 0 then [] else raw[3..2 + raw[2]]
  }

  /** The reply before masking; its length byte is truncated to eight bits. */
  function ReplyBody(x: Exec): (s: seq<byte>)
    ensures |s| == 4 + |x.report|
  {
    [SYNC, 0, (|x.report| + 2) % 256, x.status] + x.report
  }

  function Reply(x: Exec): (s: seq<byte>)
    ensures |s| == 5 + |x.report|
  {
    ReplyBody(x) + [ByteSum(ReplyBody(x)[1..]) % 256]
  }

  /** The length byte tells the truth exactly for reports of at most 253 bytes. */
  lemma ReplyLength(x: Exec)
    ensures Reply(x)[2] == |x.report| + 2 <==> |x.report| <= 253
  {
  }

  /** A reply passes the handler's own test and carries the status and all reports exactly when the
      reports take at most 253 bytes. */
  lemma ReplyFaithful(x: Exec)
    ensures Accepts(Reply(x)) && Payload(Reply(x)) == [x.status] + x.report <==> |x.report| <= 253
  {
    hide ByteSum;
    var r, b := Reply(x), ReplyBody(x);
    if |x.report| <= 253 {
      assert r[2] == |x.report| + 2;
      assert r[1..2 + r[2]] == b[1..];
      assert r[3..2 + r[2]] == [x.status] + x.report;
    } else if Accepts(r) {
      assert |Payload(r)| < |x.report| + 1;
    }
  }

  // ------------------------------------------------------------ one frame

  datatype Reaction = Ignored | Ran(x: Exec)

  /** What mxjvs_handle_frame makes of the bytes written to the port. */
  function React(b: Board, input: seq<byte>): (r: Reaction)
    requires b.Shaped()
    ensures r.Ran? ==> r.x.board.Shaped()
  {
    match Unmasked(input)
    case None => Ignored
    case Some(raw) =>
      if |raw| <= 512 && Accepts(raw) then Ran(Run(Payload(raw), 0, Start(b))) else Ignored
  }

  /** The end-to-end statement: a frame carrying complete known commands, whatever its address byte,
      none of them silent, is answered by a wire frame, and this unmasks to an acceptable frame with
      status OK and all reports in order if and only if the reports of these commands take at most
      253 bytes in all. */
  lemma Exchange(b: Board, cs: seq<Cmd>, node: byte)
    requires b.Shaped() && Proper(cs) && !AnySilent(cs)
    requires 1 <= |EncodeAll(cs)| <= 254
    ensures var r := React(b, Masked(Request(node, EncodeAll(cs))));
            && r.Ran? && !r.x.silent && r.x.board == AfterAll(b, cs)
            && var o := Unmasked(Masked(Reply(r.x)));
            o.Some? && (Accepts(o.value) && Payload(o.value) == [1] + Reports(b, cs) <==> ReportsSize(cs) <= 253)
  {
    hide EncodeAll, ByteSum, Reports, AfterAll, Run, AnySilent, Masked, Unmasked, Reply, Request, ReportsSize, Accepts, Payload;
    var q := Request(node, EncodeAll(cs));
    RequestAccepted(node, EncodeAll(cs));
    UnmaskMask(q);
    PayloadReports(b, cs);
    ReportsHaveSize(b, cs);
    var x := Run(EncodeAll(cs), 0, Start(b));
    ReplyFaithful(x);
    UnmaskMask(Reply(x));
    if Accepts(Reply(x)) { PayloadBound(Reply(x)); }
  }

  lemma PayloadBound(raw: seq<byte>)
    requires Accepts(raw)
    ensures |Payload(raw)| <= 254
  {
  }

  /** A request the board receives that goes beyond the bound: at power-on, asking for 127 analog
      channels.  Its 255 bytes of reports are in the reply buffer, but the reply announces an empty
      payload, with which it even passes the handler's own test, so that status and reports are lost. */
  lemma TooManyChannels(node: byte)
    ensures var cs := [ReadAnalog(127)];
            && Proper(cs) && !AnySilent(cs) && |EncodeAll(cs)| == 2 && ReportsSize(cs) == 255
            && var r := React(PowerOn(), Masked(Request(node, EncodeAll(cs))));
            && r.Ran? && !r.x.silent && r.x.report == Reports(PowerOn(), cs)
            && var o := Unmasked(Masked(Reply(r.x)));
            o.Some? && Accepts(o.value) && Payload(o.value) == []
  {
    hide ByteSum, Run, Masked, Unmasked, Request, Reports;
    var cs := [ReadAnalog(127)];
    OneCommand(cs);
    Exchange(PowerOn(), cs, node);
    RequestAccepted(node, EncodeAll(cs));
    UnmaskMask(Request(node, EncodeAll(cs)));
    PayloadReports(PowerOn(), cs);
    ReportsHaveSize(PowerOn(), cs);
    var x := Run(EncodeAll(cs), 0, Start(PowerOn()));
    UnmaskMask(Reply(x));
    EmptyReply(x);
  }

  lemma OneCommand(cs: seq<Cmd>)
    requires cs == [ReadAnalog(127)]
    ensures Proper(cs) && !AnySilent(cs) && EncodeAll(cs) == [0x22, 127] && ReportsSize(cs) == 255
  {
    assert cs[1..] == [];
  }

  lemma EmptyReply(x: Exec)
    requires |x.report| == 255 && x.status == 1
    ensures Accepts(Reply(x)) && Payload(Reply(x)) == []
  {
    var r := Reply(x);
    assert r[1] == 0 && r[2] == 1 && r[3] == 1;
    assert r[1..3] == [0, 1];
    assert ByteSum([0, 1]) == 1 by {
      assert [0, 1][..1] == [0];
      assert ByteSum([0]) == 0;
    }
  }

  /** A request frame around a payload. */
  function Request(node: byte, p: seq<byte>): (r: seq<byte>)
    requires |p| <= 254
    ensures |r| == 4 + |p|
  {
    var body := [node, |p| + 1] + p;
    [SYNC] + body + [ByteSum(body) % 256]
  }

  lemma RequestAccepted(node: byte, p: seq<byte>)
    requires 1 <= |p| <= 254
    ensures Accepts(Request(node, p)) && Payload(Request(node, p)) == p
  {
    hide ByteSum;
    var body := [node, |p| + 1] + p;
    var r := Request(node, p);
    assert r[2] == |p| + 1;
    assert r[1..2 + r[2]] == body;
    assert r[3..2 + r[2]] == p;
  }

  // ------------------------------------------------------------ the board object

  /** WR: a byte goes to the reply only while there is room. */
  method WriteAll(resp: array<byte>, wp0: nat, xs: seq<byte>) returns (wp: nat)
    requires resp.Length == 512 && wp0 <= ROOM
    modifies resp
    ensures wp <= ROOM && resp[4..4 + wp] == Clip(old(resp[4..4 + wp0]) + xs)
  {
    ghost var head := resp[4..4 + wp0];
    wp := wp0;
    assert head + xs[..0] == head;
    for k := 0 to |xs|
      invariant wp0 <= wp <= ROOM && wp == Min(wp0 + k, ROOM)
      invariant resp[4..4 + wp] == Clip(head + xs[..k])
    {
      ghost var before := resp[4..4 + wp];
      assert head + xs[..k + 1] == (head + xs[..k]) + [xs[k]];
      if 4 + wp < resp.Length {
        resp[4 + wp] := xs[k];
        wp := wp + 1;
        assert resp[4..4 + wp] == before + [xs[k]];
      }
    }
    assert xs[..|xs|] == xs;
  }

  /** RD: reads past the end of the payload give zero and do not advance. */
  method Rd(p: seq<byte>, ri0: nat) returns (v: byte, ri: nat)
    requires ri0 <= |p|
    ensures v == Arg(p, ri0) && ri == Min(ri0 + 1, |p|)
  {
    if ri0 < |p| {
      v, ri := p[ri0], ri0 + 1;
    } else {
      v, ri := 0, ri0;
    }
  }

  /** RECEIVE_MAIN_ID skips a zero-terminated string. */
  method SkipText(p: seq<byte>, i: nat) returns (ri: nat)
    requires i <= |p|
    ensures ri == Min(ZeroAt(p, i) + 1, |p|)
  {
    ri := i;
    while ri < |p| && p[ri] != 0
      invariant i <= ri <= |p| && ZeroAt(p, i) == ZeroAt(p, ri)
      decreases |p| - ri
    {
      ri := ri + 1;
    }
    if ri < |p| { ri := ri + 1; }
  }

  /** WRITE_GPIO1 skips a counted block. */
  method SkipData(p: seq<byte>, i: nat) returns (ri: nat)
    requires i <= |p|
    ensures ri == Min(i + 1 + Arg(p, i), |p|)
  {
    var nb, x;
    nb, ri := Rd(p, i);
    for k := 0 to nb
      invariant ri == Min(i + 1 + k, |p|)
    {
      x, ri := Rd(p, ri);
    }
  }

  lemma NotTaken(b: Board, p: seq<byte>, i: nat)
    requires b.Shaped() && i < |p|
    ensures p[i] != 0x30 && p[i] != 0xF1 && p[i] != 0xF0 ==> After(b, Parse(p, i)) == b
  {
  }

  /** Once one argument is past the end of the payload, so are the following ones. */
  lemma ArgsEnd(p: seq<byte>, i: nat)
    ensures i + 1 >= |p| ==> Arg(p, i + 1) == 0
    ensures i + 2 >= |p| ==> Arg(p, i + 2) == 0
    ensures i + 3 >= |p| ==> Arg(p, i + 3) == 0
    ensures Arg(p, |p|) == 0
  {
  }

  lemma ParseRead(p: seq<byte>, i: nat)
    requires i < |p|
    ensures p[i] == 0x20 ==> Parse(p, i) == ReadSw(Arg(p, i + 1), Arg(p, i + 2)) && Next(p, i) == Min(i + 3, |p|)
    ensures p[i] == 0x21 ==> Parse(p, i) == ReadCoin(Arg(p, i + 1)) && Next(p, i) == Min(i + 2, |p|)
    ensures p[i] == 0x22 ==> Parse(p, i) == ReadAnalog(Arg(p, i + 1)) && Next(p, i) == Min(i + 2, |p|)
  {
    hide Arg, Args, ZeroAt;
  }

  lemma ParseSet(p: seq<byte>, i: nat)
    requires i < |p|
    ensures p[i] == 0xF1 ==> Parse(p, i) == AssignAddr(Arg(p, i + 1)) && Next(p, i) == Min(i + 2, |p|)
    ensures p[i] == 0x15 ==> Parse(p, i).MainId? && Next(p, i) == Min(ZeroAt(p, i + 1) + 1, |p|)
    ensures p[i] == 0x32 ==> Parse(p, i).Gpio1? && Next(p, i) == Min(i + 2 + Arg(p, i + 1), |p|)
    ensures p[i] == 0x37 ==> Parse(p, i).Gpio2? && Next(p, i) == Min(i + 3, |p|)
    ensures p[i] == 0x38 ==> Parse(p, i).Gpio3? && Next(p, i) == Min(i + 3, |p|)
    ensures p[i] == 0x30 ==> Parse(p, i).CoinDecrease?
  {
    hide Arg, Args, ZeroAt;
  }

  lemma Acknowledged(b: Board, p: seq<byte>, i: nat)
    requires b.Shaped() && i < |p| && p[i] in {0xF1, 0x30, 0x32, 0x37, 0x38, 0x15}
    ensures Report(b, Parse(p, i)) == [1]
  {
    hide Arg, Args, ZeroAt;
  }

  class JvsDevice {
    var address: byte
    var sense: nat
    var test: bool
    var coinPrev: bool
    var sw: seq<nat>
    var coin: seq<nat>
    var analog: seq<nat>

    function Value(): Board
      reads this
    {
      Board(address, sense, test, coinPrev, sw, coin, analog)
    }

    ghost predicate Valid()
      reads this
    {
      Value().Shaped()
    }

    /** mxjvs_init. */
    constructor ()
      ensures Valid() && Value() == PowerOn()
    {
      address, sense, test, coinPrev := 0xFF, 1, false, false;
      sw, coin := [0, 0], [0, 0];
      analog := [0x8000, 0x8000, 0x8000, 0x8000, 0x8000, 0x8000, 0x8000, 0x8000];
    }

    /** mxjvs_set_input. */
    method SetInput(i: Input)
      requires Valid() && i.analogX < 0x1_0000 && i.analogY < 0x1_0000
      modifies this
      ensures Valid() && Value() == Sampled(old(Value()), i)
    {
      hide Flag;
      sw := sw[0 := Buttons(i)];
      test := i.test;
      analog := analog[1 := i.analogX];
      analog := analog[0 := i.analogY];
      if i.coin && !coinPrev { coin := coin[0 := (coin[0] + 1) % 0x1_0000]; }
      coinPrev := i.coin;
    }

    /** The switch words of a READ_SW report. */
    method WriteSwitches(resp: array<byte>, wp0: nat, players: nat) returns (wp: nat)
      requires Valid() && resp.Length == 512 && wp0 <= ROOM && players <= PLAYERS
      modifies resp
      ensures wp <= ROOM && resp[4..4 + wp] == Clip(old(resp[4..4 + wp0]) + SwitchReport(Value(), players))
    {
      hide Clip, Big16;
      ghost var head := resp[4..4 + wp0];
      wp := wp0;
      ClipNothing(head);
      for p := 0 to players
        invariant wp <= ROOM && resp[4..4 + wp] == Clip(head + SwitchReport(Value(), p))
      {
        ClipClip(head, SwitchReport(Value(), p), Big16(sw[p] * 8));
        wp := WriteAll(resp, wp, Big16(sw[p] * 8));
      }
    }

    method WriteCoins(resp: array<byte>, wp0: nat, slots: nat) returns (wp: nat)
      requires Valid() && resp.Length == 512 && wp0 <= ROOM
      modifies resp
      ensures wp <= ROOM && resp[4..4 + wp] == Clip(old(resp[4..4 + wp0]) + CoinReport(Value(), slots))
    {
      hide Clip, Big16;
      ghost var head := resp[4..4 + wp0];
      wp := wp0;
      ClipNothing(head);
      var s := 0;
      while s < slots && s < COINS
        invariant s <= slots && s <= COINS
        invariant wp <= ROOM && resp[4..4 + wp] == Clip(head + CoinReport(Value(), s))
      {
        ClipClip(head, CoinReport(Value(), s), Big16(coin[s] % 0x4000));
        wp := WriteAll(resp, wp, Big16(coin[s] % 0x4000));
        s := s + 1;
      }
      if s < slots { CoinsEnd(Value(), slots); }
    }

    method WriteAnalogs(resp: array<byte>, wp0: nat, n: nat) returns (wp: nat)
      requires Valid() && resp.Length == 512 && wp0 <= ROOM
      modifies resp
      ensures wp <= ROOM && resp[4..4 + wp] == Clip(old(resp[4..4 + wp0]) + AnalogReport(Value(), n))
    {
      hide Clip, Big16;
      ghost var head := resp[4..4 + wp0];
      wp := wp0;
      ClipNothing(head);
      for i := 0 to n
        invariant wp <= ROOM && resp[4..4 + wp] == Clip(head + AnalogReport(Value(), i))
      {
        var a := if i < ANALOGS then analog[i] else 0x8000;
        ClipClip(head, AnalogReport(Value(), i), Big16(a));
        wp := WriteAll(resp, wp, Big16(a));
      }
    }

    /** The commands that tell what the board is. */
    method ExecInfo(p: seq<byte>, ri0: nat, resp: array<byte>, wp0: nat) returns (wp: nat)
      requires Valid() && ri0 < |p| && p[ri0] in {0x10, 0x11, 0x12, 0x13, 0x14} && resp.Length == 512 && wp0 <= ROOM
      modifies resp
      ensures wp <= ROOM && resp[4..4 + wp] == Clip(old(resp[4..4 + wp0]) + Report(Value(), Parse(p, ri0)))
    {
      hide Clip, BoardId, FeatureList, Arg;
      var op := p[ri0];
      wp := WriteAll(resp, wp0, if op == 0x10 then [1] + BoardId() + [0] else if op == 0x11 then [1, 0x13]
                                else if op == 0x12 then [1, 0x20] else if op == 0x13 then [1, 0x10] else FeatureList());
    }

    /** READ_SW: the test switch and the switch words, or an invalid parameter. */
    method ExecSwitches(resp: array<byte>, wp0: nat, players: byte, bytes: byte) returns (wp: nat)
      requires Valid() && resp.Length == 512 && wp0 <= ROOM
      modifies resp
      ensures wp <= ROOM && resp[4..4 + wp] == Clip(old(resp[4..4 + wp0]) + Report(Value(), ReadSw(players, bytes)))
    {
      hide Clip, SwitchReport;
      ghost var head := resp[4..4 + wp0];
      if players as int > PLAYERS || bytes != 2 {
        wp := WriteAll(resp, wp0, [3]);
      } else {
        wp := WriteAll(resp, wp0, [1, if test then 0x80 else 0]);
        ClipClip(head, [1, if test then 0x80 else 0], SwitchReport(Value(), players));
        wp := WriteSwitches(resp, wp, players);
      }
    }

    /** The commands that read inputs back. */
    method ExecRead(p: seq<byte>, ri0: nat, resp: array<byte>, wp0: nat) returns (ri: nat, wp: nat)
      requires Valid() && ri0 < |p| && p[ri0] in {0x20, 0x21, 0x22} && resp.Length == 512 && wp0 <= ROOM
      modifies resp
      ensures ri == Next(p, ri0) && wp <= ROOM
      ensures resp[4..4 + wp] == Clip(old(resp[4..4 + wp0]) + Report(Value(), Parse(p, ri0)))
    {
      hide Clip, SwitchReport, CoinReport, AnalogReport, Arg, Parse, Next;
      ghost var head := resp[4..4 + wp0];
      ArgsEnd(p, ri0);
      ParseRead(p, ri0);
      var x;
      x, ri := Rd(p, ri0 + 1);
      if p[ri0] == 0x20 {
        var n;
        n, ri := Rd(p, ri);
        wp := ExecSwitches(resp, wp0, x, n);
      } else if p[ri0] == 0x21 {
        wp := WriteAll(resp, wp0, [1]);
        ClipClip(head, [1], CoinReport(Value(), x));
        wp := WriteCoins(resp, wp, x);
      } else {
        wp := WriteAll(resp, wp0, [1]);
        ClipClip(head, [1], AnalogReport(Value(), x));
        wp := WriteAnalogs(resp, wp, x);
      }
    }

    /** The commands that set something and only acknowledge it. */
    method ExecSet(p: seq<byte>, ri0: nat, resp: array<byte>, wp0: nat) returns (ri: nat, wp: nat)
      requires Valid() && ri0 < |p| && p[ri0] in {0xF1, 0x30, 0x32, 0x37, 0x38, 0x15} && resp.Length == 512 && wp0 <= ROOM
      modifies resp, this
      ensures Valid() && ri == Next(p, ri0) && wp <= ROOM && Value() == After(old(Value()), Parse(p, ri0))
      ensures resp[4..4 + wp] == Clip(old(resp[4..4 + wp0]) + Report(old(Value()), Parse(p, ri0)))
    {
      hide Clip, ZeroAt, Args, Accepted, Arg, Parse, Next, Report;
      var op := p[ri0];
      ParseSet(p, ri0);
      Acknowledged(Value(), p, ri0);
      if op == 0x15 {
        ri := SkipText(p, ri0 + 1);
      } else if op == 0x32 {
        ri := SkipData(p, ri0 + 1);
      } else {
        var x, y;
        x, ri := Rd(p, ri0 + 1);
        if op == 0xF1 {
          address := x;
          sense := 0;
        } else {
          y, ri := Rd(p, ri);
          if op == 0x30 { ri := ExecCoin(p, ri0); }
        }
      }
      NotTaken(old(Value()), p, ri0);
      wp := WriteAll(resp, wp0, [1]);
    }

    /** COIN_DECREASE: slot, then the amount high byte first. */
    method ExecCoin(p: seq<byte>, ri0: nat) returns (ri: nat)
      requires Valid() && ri0 < |p| && p[ri0] == 0x30
      modifies `coin
      ensures Valid() && ri == Next(p, ri0) && Value() == After(old(Value()), Parse(p, ri0))
    {
      hide Accepted, Arg, After;
      var x, y, z;
      ArgsEnd(p, ri0);
      x, ri := Rd(p, ri0 + 1);
      y, ri := Rd(p, ri);
      z, ri := Rd(p, ri);
      DecreaseCoin(x, y, z);
    }

    method DecreaseCoin(slot: byte, hi: byte, lo: byte)
      requires Valid()
      modifies `coin
      ensures Valid() && Value() == After(old(Value()), CoinDecrease(slot, hi, lo))
    {
      var h: nat := hi;
      var amt := h * 256 + lo;
      if slot as int < COINS && coin[slot] >= amt { coin := coin[slot := coin[slot] - amt]; }
    }

    /** One turn of the command loop. */
    method Exec1(p: seq<byte>, ri0: nat, resp: array<byte>, wp0: nat)
        returns (ri: nat, wp: nat, unknown: bool, silence: bool)
      requires Valid() && ri0 < |p| && resp.Length == 512 && wp0 <= ROOM
      modifies resp, this
      ensures Valid() && ri == Next(p, ri0) && wp <= ROOM && Value() == After(old(Value()), Parse(p, ri0))
      ensures resp[4..4 + wp] == Clip(old(resp[4..4 + wp0]) + Report(old(Value()), Parse(p, ri0)))
      ensures unknown == Parse(p, ri0).Unknown? && silence == Parse(p, ri0).Silent()
    {
      hide Clip, SwitchReport, CoinReport, AnalogReport, BoardId, FeatureList, ZeroAt, Args;
      var op := p[ri0];
      wp, unknown, silence := wp0, false, false;
      ClipNothing(resp[4..4 + wp0]);
      if op == 0xF0 {
        var x;
        x, ri := Rd(p, ri0 + 1);
        address, sense := 0xFF, 1;
        silence := true;
      } else if op == 0xF2 {
        ri, silence := ri0 + 1, true;
      } else if op in {0x20, 0x21, 0x22} {
        ri, wp := ExecRead(p, ri0, resp, wp0);
      } else if op in {0xF1, 0x30, 0x32, 0x37, 0x38, 0x15} {
        ri, wp := ExecSet(p, ri0, resp, wp0);
      } else if op in {0x10, 0x11, 0x12, 0x13, 0x14} {
        ri := ri0 + 1;
        wp := ExecInfo(p, ri0, resp, wp0);
      } else {
        ri, unknown := |p|, true;
      }
    }

    /** The command loop, from the first byte of the payload. */
    method RunPayload(p: seq<byte>, resp: array<byte>) returns (wp: nat, status: byte, silence: bool)
      requires Valid() && resp.Length == 512
      modifies resp, this
      ensures Valid() && wp <= ROOM
      ensures var x := Run(p, 0, Start(old(Value())));
              Value() == x.board && resp[4..4 + wp] == x.report && status == x.status && silence == x.silent
    {
      hide Clip, Parse, Next, Report, After, Accepted;
      ghost var goal := Run(p, 0, Start(Value()));
      ghost var taken := 0;
      var ri: nat := 0;
      wp, status, silence := 0, 1, false;
      assert resp[4..4] == [];
      while ri < |p|
        invariant ri <= |p| && wp <= ROOM && Valid()
        invariant goal == Run(p, ri, Exec(Value(), resp[4..4 + wp], status, silence, taken))
        decreases |p| - ri
      {
        ghost var x := Exec(Value(), resp[4..4 + wp], status, silence, taken);
        ghost var at := ri;
        var unknown, silent;
        ri, wp, unknown, silent := Exec1(p, ri, resp, wp);
        if unknown { status := 2; }
        silence := silence || silent;
        taken := Apply(x, Parse(p, at)).taken;
      }
    }

    /** mxjvs_handle_frame: the length of the masked reply in out, 0 for no reply, -1 if it does not
        fit.  The source writes the checksum after the reports, inside its buffer only while they take
        at most 507 bytes. */
    method HandleFrame(input: seq<byte>, out: array<byte>, outCap: nat) returns (r: int)
      requires Valid() && outCap <= out.Length
      requires var e := React(Value(), input); e.Ran? ==> |e.x.report| <= 507
      modifies this, out
      ensures Valid()
      ensures match React(old(Value()), input)
              case Ignored => r == 0 && Value() == old(Value()) && out[..] == old(out[..])
              case Ran(x) =>
                && Value() == x.board
                && if x.silent then r == 0 && out[..] == old(out[..])
                   else if |Masked(Reply(x))| <= outCap then r == |Masked(Reply(x))| && out[..r] == Masked(Reply(x))
                   else r == -1
    {
      hide Masked, Unmasked, Run, ByteSum, Clip;
      var raw := new byte[512];
      var resp := new byte[512];
      var rn := Unmask(input, raw, raw.Length);
      if rn < 5 || raw[0] != SYNC { return 0; }
      var len := raw[2];
      if 3 + len as int > rn { return 0; }
      assert raw[..rn][1..2 + len] == raw[1..2 + len];
      var sum := Sum8(raw[1..2 + len]);
      if sum != raw[2 + len] { return 0; }
      var p := if len == 0 then [] else raw[3..2 + len];
      assert p == Payload(raw[..rn]);
      ghost var x := Run(p, 0, Start(Value()));
      var wp, status, silence := RunPayload(p, resp);
      if silence { return 0; }
      var reply := Finish(resp, wp, status, x);
      r := Mask(reply, out, outCap);
    }
  }

  method Sum8(s: seq<byte>) returns (n: byte)
    ensures n == ByteSum(s) % 256
  {
    var t: nat := 0;
    assert s[..0] == [];
    for i := 0 to |s|
      invariant t == ByteSum(s[..i])
    {
      assert s[..i + 1][..i] == s[..i];
      t := t + s[i];
    }
    assert s[..|s|] == s;
    n := t % 256;
  }

  /** Header and checksum around the reports already in place. */
  method Finish(resp: array<byte>, wp: nat, status: byte, ghost x: Exec) returns (reply: seq<byte>)
    requires resp.Length == 512 && wp <= 507 && resp[4..4 + wp] == x.report && status == x.status
    modifies resp
    ensures reply == Reply(x)
  {
    hide ByteSum;
    resp[0], resp[1] := SYNC, 0;
    resp[2], resp[3] := (wp + 2) % 256, status;
    assert resp[..4 + wp] == ReplyBody(x);
    assert resp[1..4 + wp] == ReplyBody(x)[1..];
    var sum := Sum8(resp[1..4 + wp]);
    resp[4 + wp] := sum;
    assert resp[..5 + wp] == resp[..4 + wp] + [sum];
    reply := resp[..5 + wp];
  }

  lemma {:induction false} CoinsEnd(b: Board, slots: nat)
    requires b.Shaped() && slots >= COINS
    ensures CoinReport(b, slots) == CoinReport(b, COINS)
    decreases slots
  {
    if slots > COINS { CoinsEnd(b, slots - 1); }
  }
}
