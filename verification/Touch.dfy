/**
 The touch panel of touch.c: ten-byte command frames reassembled from arbitrary
 writes, acknowledgements queued for arbitrary reads, and a coordinate frame
 after them whenever there is room.
 */
module Touch {
  import opened Bits
  import opened Buffers

  const FRAME: nat := 10
  const SYNC: byte := 0x55
  const TXCAP: nat := 64
  const TOUCH_MAX: nat := 0x0FFF

  // ------------------------------------------------------------ frames

  /** The checksum byte of a frame with these first nine bytes. */
  function Checksum(head: seq<byte>): byte {
    (ByteSum(head) + 0x100 - 0x56) % 256
  }

  predicate IsFrame(f: seq<byte>) {
    |f| == FRAME && f[0] == SYNC && f[9] == Checksum(f[..9])
  }

  function Sealed(head: seq<byte>): (f: seq<byte>)
    requires |head| == 9 && head[0] == SYNC
    ensures IsFrame(f) && f[..9] == head
  {
    head + [Checksum(head)]
  }

  /** The coordinate frame: both axes run backwards, twelve bits each. */
  function FrameT(x: nat, y: nat, pressed: bool): (f: seq<byte>)
    requires x < 0x1_0000 && y < 0x1_0000
    ensures IsFrame(f)
  {
    var wx, wy := (TOUCH_MAX + 0x1_0000 - x) % 0x1_0000, (TOUCH_MAX + 0x1_0000 - y) % 0x1_0000;
    Sealed([SYNC, 84, if pressed then 1 else 0, wx % 256, wx / 256 % 16, wy % 256, wy / 256 % 16,
            if pressed then 255 else 0, 0])
  }

  /** The acknowledgement. */
  function FrameP(): (f: seq<byte>)
    ensures IsFrame(f)
  {
    Sealed([SYNC, 80, 48, 6, 0, 0, 0, 0, 0])
  }

  function DecodeAxis(lo: nat, hi: nat): int {
    TOUCH_MAX - (lo + 256 * hi)
  }

  /** The game gets back exactly the position sampled, if and only if both axes are within range. */
  lemma CoordinateRoundTrip(x: nat, y: nat, pressed: bool)
    requires x < 0x1_0000 && y < 0x1_0000
    ensures var f := FrameT(x, y, pressed);
            && (DecodeAxis(f[3], f[4]) == x && DecodeAxis(f[5], f[6]) == y <==> x <= TOUCH_MAX && y <= TOUCH_MAX)
            && (f[2] == 1 <==> pressed) && (f[7] == 255 <==> pressed)
  {
    hide Checksum;
    var wx, wy := (TOUCH_MAX + 0x1_0000 - x) % 0x1_0000, (TOUCH_MAX + 0x1_0000 - y) % 0x1_0000;
    var head := [SYNC, 84, if pressed then 1 else 0, wx % 256, wx / 256 % 16, wy % 256, wy / 256 % 16,
                 if pressed then 255 else 0, 0];
    var f := FrameT(x, y, pressed);
    assert f[2] == head[2] && f[3] == head[3] && f[4] == head[4] && f[5] == head[5] && f[6] == head[6] && f[7] == head[7];
    AxisRoundTrip(x);
    AxisRoundTrip(y);
  }

  lemma AxisRoundTrip(x: nat)
    requires x < 0x1_0000
    ensures var w := (TOUCH_MAX + 0x1_0000 - x) % 0x1_0000;
            DecodeAxis(w % 256, w / 256 % 16) == x <==> x <= TOUCH_MAX
  {
  }

  /** A concatenation of whole frames. */
  predicate Framed(s: seq<byte>) {
    s == [] || (|s| >= FRAME && IsFrame(s[..FRAME]) && Framed(s[FRAME..]))
  }

  lemma {:induction false} FramedAppend(s: seq<byte>, f: seq<byte>)
    requires Framed(s) && IsFrame(f)
    ensures Framed(s + f)
  {
    hide IsFrame;
    OneFrame(f);
    if s == [] {
      assert s + f == f;
    } else {
      FramedAppend(s[FRAME..], f);
      assert (s + f)[..FRAME] == s[..FRAME] && (s + f)[FRAME..] == s[FRAME..] + f;
    }
  }

  lemma OneFrame(f: seq<byte>)
    requires IsFrame(f)
    ensures |f| == FRAME && Framed(f)
  {
    assert f[..FRAME] == f && f[FRAME..] == [];
  }

  // ------------------------------------------------------------ where positions come from

  datatype Spot = Spot(x: nat, y: nat, pressed: bool) {
    predicate InRange() { x <= TOUCH_MAX && y <= TOUCH_MAX }
  }

  /** A look at the mouse, relative to the game window and with the gains the panel was compiled with,
      a position forced from the control file, or no cursor at all. */
  datatype Reading =
    | Mouse(cx: int, cy: int, w: int, h: int, gainX: real, gainY: real, held: bool, focused: bool)
    | Forced(xm: int, ym: int, press: bool)
    | NoCursor

  function Clamp(v: int, lo: int, hi: int): (r: int)
    requires lo <= hi
    ensures lo <= r <= hi
  {
    if v < lo then lo else if v > hi then hi else v
  }

  function ClampUnit(f: real): (r: real)
    ensures 0.0 <= r <= 1.0
  {
    if f < 0.0 then 0.0 else if f > 1.0 then 1.0 else f
  }

  /** How far along an axis of n pixels the cursor is. */
  function Along(c: int, n: int): real
    requires n > 0
  {
    if n > 1 then Clamp(c, 0, n - 1) as real / (n - 1) as real else 0.0
  }

  function MouseAxis(c: int, n: int, gain: real): (v: nat)
    requires n > 0
    ensures v <= TOUCH_MAX
  {
    (ClampUnit((Along(c, n) - 0.5) * gain + 0.5) * 4095.0 + 0.5).Floor
  }

  /** A position in thousandths of the axis. */
  function ForcedAxis(m: int): (v: nat)
    ensures v <= TOUCH_MAX
  {
    Clamp(m, 0, 1000) * TOUCH_MAX / 1000
  }

  /** What a reading makes of the panel's position; every position it can produce is in range. */
  function Track(s: Spot, r: Reading): (t: Spot)
    requires s.InRange()
    ensures t.InRange()
  {
    match r
    case NoCursor => s
    case Forced(xm, ym, press) => Spot(ForcedAxis(xm), ForcedAxis(ym), press)
    case Mouse(cx, cy, w, h, gainX, gainY, held, focused) =>
      if w > 0 && h > 0 then
        Spot(MouseAxis(cx, w, gainX), MouseAxis(cy, h, gainY), held && focused && 0 <= cx < w && 0 <= cy < h)
      else s.(pressed := false)
  }

  /** With unit gain the window's edges are the ends of the axis and moving right never moves left. */
  lemma MouseEdges(c: int, d: int, n: int)
    requires n > 1 && c <= d
    ensures MouseAxis(0, n, 1.0) == 0 && MouseAxis(n - 1, n, 1.0) == TOUCH_MAX
    ensures MouseAxis(c, n, 1.0) <= MouseAxis(d, n, 1.0)
  {
    hide Clamp;
    assert Along(0, n) == 0.0 && Along(n - 1, n) == 1.0 by { AlongEnds(n); }
    AlongGrows(c, d, n);
  }

  lemma AlongEnds(n: int)
    requires n > 1
    ensures Along(0, n) == 0.0 && Along(n - 1, n) == 1.0
  {
  }

  lemma AlongGrows(c: int, d: int, n: int)
    requires n > 1 && c <= d
    ensures Along(c, n) <= Along(d, n)
  {
    DivideGrows(Clamp(c, 0, n - 1) as real, Clamp(d, 0, n - 1) as real, (n - 1) as real);
  }

  lemma DivideGrows(a: real, b: real, m: real)
    requires a <= b && m > 0.0
    ensures a / m <= b / m
  {
  }

  /** Whatever is read, from the mouse or the control file, the game gets that position back. */
  lemma ReadingRoundTrip(s: Spot, r: Reading)
    requires s.InRange()
    ensures var t := Track(s, r);
            var f := FrameT(t.x, t.y, t.pressed);
            DecodeAxis(f[3], f[4]) == t.x && DecodeAxis(f[5], f[6]) == t.y && (f[2] == 1 <==> t.pressed)
  {
    hide Track, FrameT;
    var t := Track(s, r);
    CoordinateRoundTrip(t.x, t.y, t.pressed);
  }

  // ------------------------------------------------------------ the panel as a value

  /** queue: what is still to be read; used: the end of the queue in the transmit buffer, which only
      goes back to 0 once everything has been read. */
  datatype Panel = Panel(spot: Spot, queue: seq<byte>, used: nat, rx: seq<byte>, cmds: nat) {
    predicate Valid() {
      && spot.InRange()
      && |queue| <= used <= TXCAP && used % FRAME == 0 && (queue == [] ==> used == 0)
      && |rx| < FRAME && (rx != [] ==> rx[0] == SYNC)
    }
  }

  function Init(): (p: Panel)
    ensures p.Valid()
  {
    Panel(Spot(2047, 2047, false), [], 0, [], 0)
  }

  /** A frame that does not fit behind the queue is dropped whole. */
  function Push(p: Panel, f: seq<byte>): (r: Panel)
    requires p.Valid() && |f| == FRAME
    ensures r.Valid()
  {
    if p.used + FRAME > TXCAP then p else p.(queue := p.queue + f, used := p.used + FRAME)
  }

  /** The commands that are acknowledged: 'p' and 'P'. */
  predicate IsPoll(cmd: seq<byte>)
  {
    |cmd| == FRAME && (cmd[1] == 112 || cmd[1] == 80)
  }

  function OnByte(p: Panel, b: byte): (r: Panel)
    requires p.Valid()
    ensures r.Valid()
  {
    if p.rx == [] && b != SYNC then p
    else
      var rx := p.rx + [b];
      if |rx| < FRAME then p.(rx := rx)
      else
        var q := p.(rx := [], cmds := p.cmds + 1);
        if IsPoll(rx) then Push(q, FrameP()) else q
  }

  function OnWrite(p: Panel, buf: seq<byte>): (r: Panel)
    requires p.Valid()
    ensures r.Valid()
  {
    if buf == [] then p else OnByte(OnWrite(p, buf[..|buf| - 1]), buf[|buf| - 1])
  }

  /** The coordinate frame of the panel's position. */
  function PositionFrame(s: Spot): (f: seq<byte>)
    requires s.InRange()
    ensures IsFrame(f)
  {
    FrameT(s.x, s.y, s.pressed)
  }

  /** A coordinate frame follows if the whole queue is read and there is room left for it. */
  predicate Appends(p: Panel, cap: nat) {
    Min(|p.queue|, cap) + FRAME <= cap
  }

  /** The bytes a read of the given capacity returns. */
  function ReadOut(p: Panel, cap: nat): (out: seq<byte>)
    requires p.Valid()
    ensures |out| <= cap
  {
    if Appends(p, cap) then p.queue + PositionFrame(p.spot) else p.queue[..Min(|p.queue|, cap)]
  }

  function OnRead(p: Panel, cap: nat): (r: Panel)
    requires p.Valid()
    ensures r.Valid()
  {
    var k := Min(|p.queue|, cap);
    p.(queue := p.queue[k..], used := if k == |p.queue| then 0 else p.used)
  }

  /** However a write is cut into pieces, the panel ends up the same. */
  lemma {:induction false} ChunkedWrite(p: Panel, a: seq<byte>, b: seq<byte>)
    requires p.Valid()
    ensures OnWrite(p, a + b) == OnWrite(OnWrite(p, a), b)
  {
    hide OnByte;
    if b == [] {
      assert a + b == a;
    } else {
      assert (a + b)[..|a + b| - 1] == a + b[..|b| - 1];
      ChunkedWrite(p, a, b[..|b| - 1]);
    }
  }

  // ------------------------------------------------------------ every run

  datatype Event = Write(buf: seq<byte>) | Read(cap: nat) | Sample(r: Reading)

  /** The panel and everything read from it so far. */
  datatype Trace = Trace(p: Panel, read: seq<byte>)

  function Advance(t: Trace, e: Event): (r: Trace)
    requires t.p.Valid()
    ensures r.p.Valid()
  {
    match e
    case Write(buf) => Trace(OnWrite(t.p, buf), t.read)
    case Read(cap) => Trace(OnRead(t.p, cap), t.read + ReadOut(t.p, cap))
    case Sample(r) => t.(p := t.p.(spot := Track(t.p.spot, r)))
  }

  /** The run of the events from the initial panel. */
  function Play(es: seq<Event>): (r: Trace)
    ensures r.p.Valid()
  {
    if es == [] then Trace(Init(), []) else Advance(Play(es[..|es| - 1]), es[|es| - 1])
  }

  lemma ByteKeeps(p: Panel, b: byte, read: seq<byte>)
    requires p.Valid() && Framed(read + p.queue)
    ensures Framed(read + OnByte(p, b).queue)
  {
    hide Framed, IsFrame, FrameP;
    assert read + (p.queue + FrameP()) == read + p.queue + FrameP();
    FramedAppend(read + p.queue, FrameP());
  }

  lemma {:induction false} WriteKeeps(p: Panel, buf: seq<byte>, read: seq<byte>)
    requires p.Valid() && Framed(read + p.queue)
    ensures Framed(read + OnWrite(p, buf).queue)
  {
    hide OnByte, Framed;
    if buf != [] {
      WriteKeeps(p, buf[..|buf| - 1], read);
      ByteKeeps(OnWrite(p, buf[..|buf| - 1]), buf[|buf| - 1], read);
    }
  }

  lemma ReadKeeps(p: Panel, cap: nat, read: seq<byte>)
    requires p.Valid() && Framed(read + p.queue)
    ensures Framed(read + ReadOut(p, cap) + OnRead(p, cap).queue)
  {
    hide Framed, IsFrame, PositionFrame;
    ReadSplits(p, cap, read);
    if Appends(p, cap) {
      FramedAppend(read + p.queue, PositionFrame(p.spot));
    } else {
      assert read + p.queue + [] == read + p.queue;
    }
  }

  /** A read moves bytes from the queue to what was read, and may add one coordinate frame. */
  lemma ReadSplits(p: Panel, cap: nat, read: seq<byte>)
    requires p.Valid()
    ensures read + ReadOut(p, cap) + OnRead(p, cap).queue
            == read + p.queue + if Appends(p, cap) then PositionFrame(p.spot) else []
  {
    hide PositionFrame;
    var k := Min(|p.queue|, cap);
    var f := PositionFrame(p.spot);
    if Appends(p, cap) {
      assert read + (p.queue + f) + p.queue[k..] == read + p.queue + f;
    } else {
      assert read + p.queue[..k] + p.queue[k..] == read + p.queue + [];
    }
  }

  /** For any interleaving of writes in any chunks, reads of any capacity and position readings, all
      bytes read so far, followed by those queued, are whole frames. */
  lemma {:induction false} AlwaysFramed(es: seq<Event>)
    ensures Framed(Play(es).read + Play(es).p.queue)
  {
    hide Framed, OnWrite, OnRead, ReadOut, Track;
    if es == [] {
      Nothing();
    } else {
      var t := Play(es[..|es| - 1]);
      AlwaysFramed(es[..|es| - 1]);
      match es[|es| - 1]
      case Write(buf) => WriteKeeps(t.p, buf, t.read);
      case Read(cap) => ReadKeeps(t.p, cap, t.read);
      case Sample(_) =>
    }
  }

  lemma Nothing()
    ensures Framed([] + Init().queue)
  {
  }

  /** A coordinate frame is only ever delivered behind the whole queue, never inside an ack. */
  lemma NeverSplits(p: Panel, cap: nat)
    requires p.Valid()
    ensures ReadOut(p, cap) <= p.queue || (ReadOut(p, cap) == p.queue + PositionFrame(p.spot) && OnRead(p, cap).queue == [])
  {
    hide PositionFrame;
    if Appends(p, cap) {
      assert Min(|p.queue|, cap) == |p.queue|;
      assert OnRead(p, cap).queue == p.queue[|p.queue|..] == [];
    } else {
      assert ReadOut(p, cap) == p.queue[..Min(|p.queue|, cap)] <= p.queue;
    }
  }

  // ------------------------------------------------------------ what the frames say

  /** Everything written, in order. */
  function Written(es: seq<Event>): seq<byte>
  {
    if es == [] then []
    else Written(es[..|es| - 1]) + if es[|es| - 1].Write? then es[|es| - 1].buf else []
  }

  /** The complete command frames of a byte stream: bytes before a sync byte are skipped. */
  function Commands(w: seq<byte>): seq<seq<byte>>
  {
    if w == [] then []
    else if w[0] != SYNC then Commands(w[1..])
    else if |w| < FRAME then []
    else [w[..FRAME]] + Commands(w[FRAME..])
  }

  /** The incomplete frame at the end of a byte stream. */
  function Partial(w: seq<byte>): seq<byte>
  {
    if w == [] then []
    else if w[0] != SYNC then Partial(w[1..])
    else if |w| < FRAME then w
    else Partial(w[FRAME..])
  }

  /** The numbers of the commands, from n on, that ask for an acknowledgement. */
  function Polls(cmds: seq<seq<byte>>): (ks: seq<nat>)
  {
    if cmds == [] then []
    else Polls(cmds[..|cmds| - 1]) + if IsPoll(cmds[|cmds| - 1]) then [|cmds| - 1] else []
  }

  /** The position after the readings among the events; nothing else moves it. */
  function SpotAfter(es: seq<Event>): (s: Spot)
    ensures s.InRange()
  {
    if es == [] then Spot(2047, 2047, false)
    else if es[|es| - 1].Sample? then Track(SpotAfter(es[..|es| - 1]), es[|es| - 1].r)
    else SpotAfter(es[..|es| - 1])
  }

  /** What happened, in the order in which the game sees it: command k acknowledged, command k not
      acknowledged for want of room, or a coordinate frame at event number at. */
  datatype Msg = Ack(k: nat) | Dropped(k: nat) | Position(at: nat)

  function ByteLog(p: Panel, b: byte): seq<Msg>
    requires p.Valid()
  {
    if |p.rx| == FRAME - 1 && IsPoll(p.rx + [b]) then
      if p.used < 6 * FRAME then [Ack(p.cmds)] else [Dropped(p.cmds)]
    else []
  }

  function WriteLog(p: Panel, buf: seq<byte>): seq<Msg>
    requires p.Valid()
  {
    if buf == [] then []
    else WriteLog(p, buf[..|buf| - 1]) + ByteLog(OnWrite(p, buf[..|buf| - 1]), buf[|buf| - 1])
  }

  function EventLog(p: Panel, e: Event, at: nat): seq<Msg>
    requires p.Valid()
  {
    match e
    case Write(buf) => WriteLog(p, buf)
    case Read(cap) => if Appends(p, cap) then [Position(at)] else []
    case Sample(_) => []
  }

  function Log(es: seq<Event>): seq<Msg>
  {
    if es == [] then [] else Log(es[..|es| - 1]) + EventLog(Play(es[..|es| - 1]).p, es[|es| - 1], |es| - 1)
  }

  /** The bytes a message is carried by. */
  function Carrier(es: seq<Event>, m: Msg): seq<byte>
  {
    match m
    case Ack(_) => FrameP()
    case Dropped(_) => []
    case Position(at) => PositionFrame(SpotAfter(es[..Min(at, |es|)]))
  }

  function Bytes(es: seq<Event>, log: seq<Msg>): seq<byte>
  {
    if log == [] then [] else Bytes(es, log[..|log| - 1]) + Carrier(es, log[|log| - 1])
  }

  /** The commands a log deals with. */
  function Handled(log: seq<Msg>): (ks: seq<nat>)
  {
    if log == [] then []
    else
      var m := log[|log| - 1];
      Handled(log[..|log| - 1]) + if m.Position? then [] else [m.k]
  }

  /** Positions are taken at reads, in the order of the events. */
  ghost predicate InOrder(es: seq<Event>, log: seq<Msg>)
  {
    && (forall i | 0 <= i < |log| && log[i].Position? :: log[i].at < |es| && es[log[i].at].Read?)
    && (forall i, j | 0 <= i < j < |log| && log[i].Position? && log[j].Position? :: log[i].at < log[j].at)
  }

  lemma {:induction false} CommandsSnoc(w: seq<byte>, b: byte)
    ensures var rx := Partial(w) + [b];
            if Partial(w) == [] && b != SYNC then Commands(w + [b]) == Commands(w) && Partial(w + [b]) == []
            else if |rx| < FRAME then Commands(w + [b]) == Commands(w) && Partial(w + [b]) == rx
            else Commands(w + [b]) == Commands(w) + [rx] && Partial(w + [b]) == []
    ensures |Partial(w)| < FRAME
  {
    var u := w + [b];
    if w == [] {
      assert u == [b] && u[1..] == [];
    } else if w[0] != SYNC {
      assert u[1..] == w[1..] + [b];
      CommandsSnoc(w[1..], b);
    } else if |w| < FRAME {
      if |u| == FRAME { assert u[..FRAME] == u && u[FRAME..] == []; }
    } else {
      assert u[..FRAME] == w[..FRAME] && u[FRAME..] == w[FRAME..] + [b];
      CommandsSnoc(w[FRAME..], b);
    }
  }

  lemma {:induction false} HandledConcat(a: seq<Msg>, b: seq<Msg>)
    ensures Handled(a + b) == Handled(a) + Handled(b)
  {
    if b == [] {
      assert a + b == a;
    } else {
      assert (a + b)[..|a + b| - 1] == a + b[..|b| - 1];
      HandledConcat(a, b[..|b| - 1]);
    }
  }

  lemma {:induction false} BytesConcat(es: seq<Event>, a: seq<Msg>, b: seq<Msg>)
    ensures Bytes(es, a + b) == Bytes(es, a) + Bytes(es, b)
  {
    hide Carrier;
    if b == [] {
      assert a + b == a;
    } else {
      assert (a + b)[..|a + b| - 1] == a + b[..|b| - 1];
      BytesConcat(es, a, b[..|b| - 1]);
    }
  }

  /** What is in the receive buffer and how many commands are counted is what the bytes written say. */
  predicate Reads(p: Panel, w: seq<byte>) {
    p.rx == Partial(w) && p.cmds == |Commands(w)|
  }

  lemma OneMsg(es: seq<Event>, m: Msg)
    ensures Bytes(es, [m]) == Carrier(es, m) && Handled([m]) == if m.Position? then [] else [m.k]
  {
    hide Carrier;
    assert [m][..0] == [];
    assert Bytes(es, [m]) == [] + Carrier(es, m);
  }

  lemma PollsSnoc(cmds: seq<seq<byte>>, cmd: seq<byte>)
    ensures Polls(cmds + [cmd]) == Polls(cmds) + if IsPoll(cmd) then [|cmds|] else []
  {
    hide IsPoll;
    assert (cmds + [cmd])[..|cmds|] == cmds;
  }

  lemma ByteSays(p: Panel, w: seq<byte>, b: byte, es: seq<Event>)
    requires p.Valid() && Reads(p, w)
    ensures Reads(OnByte(p, b), w + [b])
    ensures OnByte(p, b).queue == p.queue + Bytes(es, ByteLog(p, b))
    ensures Polls(Commands(w + [b])) == Polls(Commands(w)) + Handled(ByteLog(p, b))
  {
    hide Commands, Partial, FrameP, IsPoll, Polls, Bytes, Handled, Carrier;
    NoMsg(es);
    CommandsSnoc(w, b);
    var rx := p.rx + [b];
    if |rx| == FRAME && (p.rx != [] || b == SYNC) {
      PollsSnoc(Commands(w), rx);
      if IsPoll(rx) { PollSays(p, es); }
    }
  }

  lemma NoMsg(es: seq<Event>)
    ensures Bytes(es, []) == [] && Handled([]) == []
  {
  }

  lemma PollSays(p: Panel, es: seq<Event>)
    ensures Bytes(es, [Ack(p.cmds)]) == FrameP() && Handled([Ack(p.cmds)]) == [p.cmds]
    ensures Bytes(es, [Dropped(p.cmds)]) == [] && Handled([Dropped(p.cmds)]) == [p.cmds]
  {
    hide FrameP;
    OneMsg(es, Ack(p.cmds));
    OneMsg(es, Dropped(p.cmds));
  }

  /** The queue, the commands read and the polls dealt with change as the messages say. */
  ghost predicate Says(p: Panel, w: seq<byte>, q: Panel, buf: seq<byte>, es: seq<Event>, log: seq<Msg>)
  {
    && Reads(q, w + buf) && q.queue == p.queue + Bytes(es, log)
    && Polls(Commands(w + buf)) == Polls(Commands(w)) + Handled(log)
  }

  lemma SaysMore(p: Panel, w: seq<byte>, q: Panel, buf: seq<byte>, es: seq<Event>, log: seq<Msg>, b: byte)
    requires q.Valid() && Says(p, w, q, buf, es, log)
    ensures Says(p, w, OnByte(q, b), buf + [b], es, log + ByteLog(q, b))
  {
    hide OnByte, ByteLog, Reads, Commands, Polls, Bytes, Handled, Panel.Valid;
    ByteSays(q, w + buf, b, es);
    assert w + buf + [b] == w + (buf + [b]);
    BytesConcat(es, log, ByteLog(q, b));
    HandledConcat(log, ByteLog(q, b));
  }

  lemma {:induction false} WriteSays(p: Panel, w: seq<byte>, buf: seq<byte>, es: seq<Event>)
    requires p.Valid() && Reads(p, w)
    ensures Says(p, w, OnWrite(p, buf), buf, es, WriteLog(p, buf))
  {
    hide OnByte, ByteLog, Says, Reads, Panel.Valid;
    if buf == [] {
      SaysNothing(p, w, es);
    } else {
      var n := |buf| - 1;
      WriteSays(p, w, buf[..n], es);
      SaysMore(p, w, OnWrite(p, buf[..n]), buf[..n], es, WriteLog(p, buf[..n]), buf[n]);
      assert buf[..n] + [buf[n]] == buf;
    }
  }

  lemma SaysNothing(p: Panel, w: seq<byte>, es: seq<Event>)
    requires Reads(p, w)
    ensures Says(p, w, p, [], es, [])
  {
    hide Reads, Commands, Polls;
    assert w + [] == w;
  }

  /** Messages about earlier events are carried by the same bytes later. */
  lemma {:induction false} BytesStable(es: seq<Event>, e: Event, log: seq<Msg>)
    requires forall i | 0 <= i < |log| && log[i].Position? :: log[i].at <= |es|
    ensures Bytes(es + [e], log) == Bytes(es, log)
  {
    hide SpotAfter, PositionFrame;
    if log != [] {
      BytesStable(es, e, log[..|log| - 1]);
      var m := log[|log| - 1];
      if m.Position? { assert (es + [e])[..m.at] == es[..m.at]; }
    }
  }

  lemma {:induction false} SpotIs(es: seq<Event>)
    ensures Play(es).p.spot == SpotAfter(es)
  {
    hide Track, OnRead, ReadOut;
    if es != [] {
      SpotIs(es[..|es| - 1]);
      if es[|es| - 1].Write? { WriteSpot(Play(es[..|es| - 1]).p, es[|es| - 1].buf); }
      if es[|es| - 1].Read? { ReadSpot(Play(es[..|es| - 1]).p, es[|es| - 1].cap); }
    }
  }

  lemma ReadSpot(p: Panel, cap: nat)
    requires p.Valid()
    ensures OnRead(p, cap) == p.(queue := OnRead(p, cap).queue, used := OnRead(p, cap).used)
  {
  }

  lemma {:induction false} WriteSpot(p: Panel, buf: seq<byte>)
    requires p.Valid()
    ensures OnWrite(p, buf).spot == p.spot
  {
    if buf != [] { WriteSpot(p, buf[..|buf| - 1]); }
  }

  lemma {:induction false} WriteLogKinds(p: Panel, buf: seq<byte>)
    requires p.Valid()
    ensures forall m | m in WriteLog(p, buf) :: !m.Position?
  {
    hide OnWrite, IsPoll;
    if buf != [] { WriteLogKinds(p, buf[..|buf| - 1]); }
  }

  lemma {:induction false} LogInOrder(es: seq<Event>)
    ensures InOrder(es, Log(es))
  {
    hide WriteLog, Play, Appends;
    if es != [] {
      var init, e := es[..|es| - 1], es[|es| - 1];
      LogInOrder(init);
      if e.Write? {
        WriteLogKinds(Play(init).p, e.buf);
        OrderMore(es, Log(init), WriteLog(Play(init).p, e.buf));
      }
    }
  }

  lemma OrderMore(es: seq<Event>, log: seq<Msg>, more: seq<Msg>)
    requires es != [] && InOrder(es[..|es| - 1], log) && forall m | m in more :: !m.Position?
    ensures InOrder(es, log + more)
  {
    forall i | |log| <= i < |log + more| ensures !(log + more)[i].Position? {
      assert (log + more)[i] in more;
    }
  }

  /** What the bytes read and queued, the log and the bytes written have to do with each other. */
  ghost predicate Means(t: Trace, es: seq<Event>, log: seq<Msg>, w: seq<byte>)
  {
    t.read + t.p.queue == Bytes(es, log) && Handled(log) == Polls(Commands(w)) && Reads(t.p, w)
  }

  /** The whole meaning of the byte stream, over every run: the bytes read and still queued are exactly
      the frames of the log, in order.  Its acknowledgements and drops are exactly the polls among the
      commands that the bytes written spell, each once and in order; a poll is dropped only when six
      frames were queued since the queue was last read empty.  Its coordinate frames are taken at reads,
      in order, and each carries the position of the last reading before it. */
  lemma {:induction false} StreamMeans(es: seq<Event>)
    ensures Means(Play(es), es, Log(es), Written(es)) && InOrder(es, Log(es))
  {
    hide Advance, EventLog, Means, InOrder, Bytes, Polls, Commands, Handled, Reads, Panel.Valid;
    LogInOrder(es);
    if es == [] {
      NothingSaid();
    } else {
      var init, e := es[..|es| - 1], es[|es| - 1];
      StreamMeans(init);
      assert es == init + [e];
      EventMeans(init, e);
    }
  }

  lemma MeansLater(t: Trace, es: seq<Event>, e: Event, log: seq<Msg>, w: seq<byte>)
    requires Means(t, es, log, w)
    requires forall i | 0 <= i < |log| && log[i].Position? :: log[i].at <= |es|
    ensures Means(t, es + [e], log, w)
  {
    hide Commands, Polls, Bytes, Handled, Reads;
    BytesStable(es, e, log);
  }

  lemma EventMeans(init: seq<Event>, e: Event)
    requires Means(Play(init), init, Log(init), Written(init))
    ensures Means(Advance(Play(init), e), init + [e], Log(init) + EventLog(Play(init).p, e, |init|),
                  Written(init) + if e.Write? then e.buf else [])
  {
    hide Advance, EventLog, Play, Log, Written, Bytes, Handled, Reads, Means, SpotAfter, Panel.Valid;
    var es, t, log, w := init + [e], Play(init), Log(init), Written(init);
    LogTimes(init);
    MeansLater(t, init, e, log, w);
    assert w + [] == w;
    match e
    case Write(buf) => WriteMeans(t, es, log, w, buf, |init|);
    case Read(cap) =>
      assert es[..|init|] == init;
      SpotIs(init);
      ReadMeans(t, es, log, w, cap, |init|);
    case Sample(r) => SampleMeans(t, es, log, w, r, |init|);
  }

  lemma WriteMeans(t: Trace, es: seq<Event>, log: seq<Msg>, w: seq<byte>, buf: seq<byte>, at: nat)
    requires t.p.Valid() && Means(t, es, log, w)
    ensures Means(Advance(t, Write(buf)), es, log + EventLog(t.p, Write(buf), at), w + buf)
  {
    hide OnWrite, WriteLog, Commands, Polls, Bytes, Handled, Reads, Panel.Valid;
    WriteSays(t.p, w, buf, es);
    BytesConcat(es, log, WriteLog(t.p, buf));
    HandledConcat(log, WriteLog(t.p, buf));
    assert t.read + (t.p.queue + Bytes(es, WriteLog(t.p, buf))) == t.read + t.p.queue + Bytes(es, WriteLog(t.p, buf));
  }

  lemma ReadMeans(t: Trace, es: seq<Event>, log: seq<Msg>, w: seq<byte>, cap: nat, at: nat)
    requires t.p.Valid() && Means(t, es, log, w) && at < |es| && t.p.spot == SpotAfter(es[..at])
    ensures Means(Advance(t, Read(cap)), es, log + EventLog(t.p, Read(cap), at), w)
  {
    hide OnRead, ReadOut, EventLog, Commands, Polls, Bytes, Handled, Reads, SpotAfter, Panel.Valid;
    BytesConcat(es, log, EventLog(t.p, Read(cap), at));
    HandledConcat(log, EventLog(t.p, Read(cap), at));
    ReadSays(t.p, cap, t.read, es, at);
    ReadReads(t.p, cap, w);
  }

  lemma SampleMeans(t: Trace, es: seq<Event>, log: seq<Msg>, w: seq<byte>, r: Reading, at: nat)
    requires t.p.Valid() && Means(t, es, log, w)
    ensures Means(Advance(t, Sample(r)), es, log + EventLog(t.p, Sample(r), at), w)
  {
    hide Track, Commands, Polls, Bytes, Handled, Reads, Panel.Valid;
    SampleReads(t.p, r, w);
    assert log + [] == log;
  }

  lemma NothingSaid()
    ensures Means(Trace(Init(), []), [], [], [])
  {
  }

  lemma LogTimes(es: seq<Event>)
    ensures forall i | 0 <= i < |Log(es)| && Log(es)[i].Position? :: Log(es)[i].at <= |es|
  {
    hide Log;
    LogInOrder(es);
  }

  lemma ReadSays(p: Panel, cap: nat, read: seq<byte>, es: seq<Event>, at: nat)
    requires p.Valid() && at < |es| && p.spot == SpotAfter(es[..at])
    ensures read + ReadOut(p, cap) + OnRead(p, cap).queue
            == read + p.queue + Bytes(es, EventLog(p, Read(cap), at))
    ensures Handled(EventLog(p, Read(cap), at)) == []
  {
    hide PositionFrame, ReadOut, OnRead, Appends, SpotAfter;
    ReadSplits(p, cap, read);
    OneMsg(es, Position(at));
  }

  lemma ReadReads(p: Panel, cap: nat, w: seq<byte>)
    requires p.Valid() && Reads(p, w)
    ensures Reads(OnRead(p, cap), w)
  {
    hide Commands, Partial;
  }

  lemma SampleReads(p: Panel, r: Reading, w: seq<byte>)
    requires p.Valid() && Reads(p, w)
    ensures Reads(p.(spot := Track(p.spot, r)), w)
  {
    hide Commands, Partial, Track;
  }

  // ------------------------------------------------------------ the panel object

  class TouchPanel {
    var x: nat
    var y: nat
    var pressed: bool
    const tx: array<byte>
    var txLen: nat
    var txOff: nat
    const rx: array<byte>
    var rxLen: nat
    var cmds: nat

    ghost predicate Shaped()
      reads this
    {
      tx.Length == TXCAP && rx.Length == FRAME && tx != rx && txOff <= txLen <= TXCAP && rxLen < FRAME
    }

    /** An empty queue counts as starting over, whatever the offsets say. */
    ghost function Value(): Panel
      requires Shaped()
      reads this, tx, rx
    {
      Panel(Spot(x, y, pressed), tx[txOff..txLen], if txOff == txLen then 0 else txLen, rx[..rxLen], cmds)
    }

    ghost predicate Valid()
      reads this, tx, rx
    {
      Shaped() && Value().Valid()
    }

    constructor ()
      ensures Valid() && Value() == Init() && fresh(tx) && fresh(rx)
    {
      x, y, pressed := 2047, 2047, false;
      tx := new byte[TXCAP];
      rx := new byte[FRAME];
      txLen, txOff, rxLen, cmds := 0, 0, 0, 0;
    }

    /** touch_sample_mouse, or the position forced from the control file. */
    method Sample(r: Reading)
      requires Valid()
      modifies `x, `y, `pressed
      ensures Valid() && Value() == old(Value()).(spot := Track(Spot(old(x), old(y), old(pressed)), r))
    {
      hide MouseAxis, ForcedAxis;
      match r
      case NoCursor =>
      case Forced(xm, ym, press) =>
        x, y, pressed := ForcedAxis(xm), ForcedAxis(ym), press;
      case Mouse(cx, cy, w, h, gainX, gainY, held, focused) =>
        var inside := false;
        if w > 0 && h > 0 {
          inside := 0 <= cx < w && 0 <= cy < h;
          x, y := MouseAxis(cx, w, gainX), MouseAxis(cy, h, gainY);
        }
        pressed := held && focused && inside;
    }

    /** tx_push. */
    method TxPush(f: seq<byte>)
      requires Valid() && |f| == FRAME
      modifies `txLen, `txOff, tx
      ensures Valid() && Value() == Push(old(Value()), f)
    {
      if txOff >= txLen { txLen, txOff := 0, 0; }
      if txLen + |f| > tx.Length { return; }
      ghost var q, m := tx[txOff..txLen], tx[..];
      Blit(tx, txLen, f);
      assert tx[txOff..txLen] == m[txOff..txLen] == q;
      assert tx[txLen..txLen + |f|] == f;
      txLen := txLen + |f|;
      assert tx[txOff..txLen] == q + f;
    }

    method WriteByte(b: byte)
      requires Valid()
      modifies `txLen, `txOff, `rxLen, `cmds, tx, rx
      ensures Valid() && Value() == OnByte(old(Value()), b)
    {
      hide FrameP, Push;
      if rxLen == 0 && b != SYNC { return; }
      ghost var v := Value();
      rx[rxLen] := b;
      rxLen := rxLen + 1;
      assert rx[..rxLen] == v.rx + [b];
      if rxLen < FRAME { return; }
      var cmd := rx[1];
      rxLen := 0;
      cmds := cmds + 1;
      assert rx[..rxLen] == [];
      if cmd == 112 || cmd == 80 { TxPush(FrameP()); }
    }

    /** touch_on_write. */
    method Write(buf: seq<byte>)
      requires Valid()
      modifies `txLen, `txOff, `rxLen, `cmds, tx, rx
      ensures Valid() && Value() == OnWrite(old(Value()), buf)
    {
      hide OnByte;
      ghost var v := Value();
      assert OnWrite(v, buf[..0]) == v;
      for i := 0 to |buf|
        invariant Valid() && Value() == OnWrite(v, buf[..i])
      {
        assert buf[..i + 1][..i] == buf[..i];
        WriteByte(buf[i]);
      }
      assert buf[..|buf|] == buf;
    }

    /** touch_on_read. */
    method Read(out: array<byte>, cap: nat) returns (o: nat)
      requires Valid() && cap <= out.Length && out != tx && out != rx
      modifies `txLen, `txOff, out
      ensures Valid() && Value() == OnRead(old(Value()), cap)
      ensures o == |ReadOut(old(Value()), cap)| && out[..o] == ReadOut(old(Value()), cap)
    {
      hide PositionFrame;
      ghost var m, txOff0, txLen0 := tx[..], txOff, txLen;
      o := Drain(tx, txOff, txLen, out, cap);
      assert tx[..] == m;
      SliceSplit(m, txOff, txLen, o);
      txOff := txOff + o;
      if txOff >= txLen { txLen, txOff := 0, 0; }
      if o + FRAME <= cap {
        ghost var head := out[..o];
        assert head == m[txOff0..txLen0];
        Blit(out, o, PositionFrame(Spot(x, y, pressed)));
        o := o + FRAME;
        assert out[..o] == head + PositionFrame(Spot(x, y, pressed));
      }
    }
  }

  // ------------------------------------------------------------ frames and positions in numbers

  /** The checksum makes the sum of all bytes but the first and the last come out one more than the last. */
  lemma ChecksumLiterally(f: seq<byte>)
    requires |f| == 10 && f[0] == 0x55
    ensures IsFrame(f) <==> f[9] == (ByteSum(f[1..9]) + 255) % 256
  {
    hide ByteSum;
    SumFront(f[0], f[1..9]);
    assert [f[0]] + f[1..9] == f[..9];
  }

  lemma {:induction false} SumFront(a: byte, s: seq<byte>)
    ensures ByteSum([a] + s) == a + ByteSum(s)
  {
    if s == [] {
      assert [a] + s == [a] && [a][..0] == s;
    } else {
      assert ([a] + s)[..|s|] == [a] + s[..|s| - 1];
      SumFront(a, s[..|s| - 1]);
    }
  }

  /** The acknowledgement, byte by byte. */
  lemma AckLiterally()
    ensures FrameP() == [0x55, 0x50, 0x30, 6, 0, 0, 0, 0, 0, 0x85]
  {
    hide ByteSum;
    SumNine(0x55, 80, 48, 6, 0, 0, 0, 0, 0);
  }

  lemma SumNine(a: byte, b: byte, c: byte, d: byte, e: byte, f: byte, g: byte, h: byte, i: byte)
    ensures ByteSum([a, b, c, d, e, f, g, h, i]) == a + b + c + d + e + f + g + h + i
  {
    hide ByteSum;
    SumFront(a, [b, c, d, e, f, g, h, i]);
    SumFront(b, [c, d, e, f, g, h, i]);
    SumFront(c, [d, e, f, g, h, i]);
    SumFront(d, [e, f, g, h, i]);
    SumFront(e, [f, g, h, i]);
    SumFront(f, [g, h, i]);
    SumFront(g, [h, i]);
    SumFront(h, [i]);
    SumFront(i, []);
    SumNone();
    assert [a] + [b, c, d, e, f, g, h, i] == [a, b, c, d, e, f, g, h, i];
    assert [b] + [c, d, e, f, g, h, i] == [b, c, d, e, f, g, h, i];
    assert [c] + [d, e, f, g, h, i] == [c, d, e, f, g, h, i];
    assert [d] + [e, f, g, h, i] == [d, e, f, g, h, i];
    assert [e] + [f, g, h, i] == [e, f, g, h, i];
    assert [f] + [g, h, i] == [f, g, h, i];
    assert [g] + [h, i] == [g, h, i] && [h] + [i] == [h, i] && [i] + [] == [i];
  }

  lemma SumNone()
    ensures ByteSum([]) == 0
  {
  }

  /** A coordinate frame: 'T', the button, and both axes counted down from 4095, low byte first. */
  lemma PositionLiterally(s: Spot)
    requires s.InRange()
    ensures var f := PositionFrame(s);
            f[..9] == [0x55, 0x54, if s.pressed then 1 else 0, (4095 - s.x) % 256, (4095 - s.x) / 256,
                       (4095 - s.y) % 256, (4095 - s.y) / 256, if s.pressed then 255 else 0, 0]
  {
    hide Checksum;
    AxisBytes(s.x);
    AxisBytes(s.y);
  }

  lemma AxisBytes(x: nat)
    requires x <= 4095
    ensures var w := (TOUCH_MAX + 0x1_0000 - x) % 0x1_0000; w == 4095 - x && w / 256 % 16 == w / 256
  {
  }

  /** Ten bytes from 0x55 on are acknowledged if the second is 'p' or 'P' and there is room for it in the
      64 bytes of the transmit buffer, and not otherwise. */
  lemma PollLiterally(p: Panel, op: byte, a: byte, b: byte, c: byte, d: byte, e: byte, f: byte, g: byte, h: byte)
    requires p.Valid() && p.rx == []
    ensures var t := OnWrite(p, [0x55, op, a, b, c, d, e, f, g, h]);
            var answered := (op == 0x70 || op == 0x50) && p.used + 10 <= 64;
            && t.queue == (if answered then p.queue + [0x55, 0x50, 0x30, 6, 0, 0, 0, 0, 0, 0x85] else p.queue)
            && t.used == (if answered then p.used + 10 else p.used)
            && t.rx == [] && t.cmds == p.cmds + 1 && t.spot == p.spot
  {
    hide OnWrite, FrameP, OnByte;
    AckLiterally();
    var w := [0x55, op, a, b, c, d, e, f, g, h];
    TakesSome(p, w, 9);
    LastTaken(p, w);
  }

  lemma {:induction false} TakesSome(p: Panel, w: seq<byte>, k: nat)
    requires p.Valid() && p.rx == [] && |w| == 10 && w[0] == 0x55 && k <= 9
    ensures OnWrite(p, w[..k]) == p.(rx := w[..k])
  {
    if k > 0 {
      TakesSome(p, w, k - 1);
      assert w[..k][..k - 1] == w[..k - 1] && w[..k] == w[..k - 1] + [w[k - 1]];
    } else {
      assert p.(rx := []) == p;
    }
  }

  lemma LastTaken(p: Panel, w: seq<byte>)
    requires p.Valid() && p.rx == [] && |w| == 10 && w[0] == 0x55 && OnWrite(p, w[..9]) == p.(rx := w[..9])
    ensures OnWrite(p, w) == var q := p.(cmds := p.cmds + 1); if w[1] == 0x70 || w[1] == 0x50 then Push(q, FrameP()) else q
  {
    hide FrameP;
    assert w[..9] + [w[9]] == w;
  }

  function PollTimes(n: nat): seq<byte> {
    if n == 0 then [] else PollTimes(n - 1) + [0x55, 0x70, 0, 0, 0, 0, 0, 0, 0, 0]
  }

  /** Of any number of polls with nothing read in between the first six are answered. */
  lemma {:induction false} PollsHeld(n: nat)
    ensures var t := OnWrite(Init(), PollTimes(n));
            |t.queue| == t.used == 10 * (if n < 6 then n else 6) && t.rx == [] && t.cmds == n
  {
    hide OnWrite;
    if n > 0 {
      PollsHeld(n - 1);
      ChunkedWrite(Init(), PollTimes(n - 1), [0x55, 0x70, 0, 0, 0, 0, 0, 0, 0, 0]);
      PollLiterally(OnWrite(Init(), PollTimes(n - 1)), 0x70, 0, 0, 0, 0, 0, 0, 0, 0);
    } else {
      NothingWritten(Init());
    }
  }

  lemma NothingWritten(p: Panel)
    requires p.Valid()
    ensures OnWrite(p, []) == p
  {
  }

  /** A read takes from the front of the queue; the buffer is free again only once it is empty; a position
      follows if ten more bytes are asked for. */
  lemma ReadLiterally(p: Panel, cap: nat)
    requires p.Valid()
    ensures cap < |p.queue| ==> ReadOut(p, cap) == p.queue[..cap] && OnRead(p, cap) == p.(queue := p.queue[cap..])
    ensures cap >= |p.queue| ==> OnRead(p, cap) == p.(queue := [], used := 0)
    ensures |p.queue| <= cap < |p.queue| + 10 ==> ReadOut(p, cap) == p.queue
    ensures cap >= |p.queue| + 10 ==> ReadOut(p, cap) == p.queue + PositionFrame(p.spot)
  {
  }

  /** A forced position is given in thousandths, x first, and limited to the axis. */
  lemma ForcedLiterally(s: Spot, xm: int, ym: int, press: bool)
    requires s.InRange()
    ensures var t := Track(s, Forced(xm, ym, press));
            && t.pressed == press
            && t.x == (if xm < 0 then 0 else if xm > 1000 then 4095 else xm * 4095 / 1000)
            && t.y == (if ym < 0 then 0 else if ym > 1000 then 4095 else ym * 4095 / 1000)
  {
  }

  /** With the gains of 1 the window's corners are the corners of the panel; the button counts if it is
      held inside the focused window. */
  lemma CornersLiterally(s: Spot, cx: int, cy: int, w: int, h: int, held: bool, focused: bool)
    requires s.InRange() && w > 1 && h > 1
    ensures var t := Track(s, Mouse(cx, cy, w, h, 1.0, 1.0, held, focused));
            && (cx <= 0 ==> t.x == 0) && (cx >= w - 1 ==> t.x == 4095)
            && (cy <= 0 ==> t.y == 0) && (cy >= h - 1 ==> t.y == 4095)
            && (t.pressed <==> held && focused && 0 <= cx < w && 0 <= cy < h)
    ensures Track(s, Mouse(cx, cy, 0, h, 1.0, 1.0, held, focused)) == s.(pressed := false) && Track(s, NoCursor) == s
  {
    hide MouseAxis;
    AxisEnds(cx, w);
    AxisEnds(cy, h);
  }

  lemma AxisEnds(c: int, n: int)
    requires n > 1
    ensures c <= 0 ==> MouseAxis(c, n, 1.0) == 0
    ensures c >= n - 1 ==> MouseAxis(c, n, 1.0) == 4095
  {
    AlongEnds(n);
    assert c <= 0 ==> Along(c, n) == Along(0, n);
    assert c >= n - 1 ==> Along(c, n) == Along(n - 1, n);
  }

  /** The gain is about the centre: a gain of 2 takes the outer quarters of the window to the ends of the
      axis, and a gain of 0 leaves the centre only. */
  lemma GainLiterally(c: int, n: int)
    requires n > 1
    ensures 4 * c <= n - 1 ==> MouseAxis(c, n, 2.0) == 0
    ensures 3 * (n - 1) <= 4 * c ==> MouseAxis(c, n, 2.0) == 4095
    ensures MouseAxis(c, n, 0.0) == 2048
  {
    hide Along, Clamp;
    Quarters(c, n);
    assert Along(c, n) * 0.0 == 0.0;
  }

  lemma Quarters(c: int, n: int)
    requires n > 1
    ensures 4 * c <= n - 1 ==> Along(c, n) <= 0.25
    ensures 3 * (n - 1) <= 4 * c ==> Along(c, n) >= 0.75
  {
    var x, m := Clamp(c, 0, n - 1) as real, (n - 1) as real;
    assert Along(c, n) == x / m;
    assert 4 * c <= n - 1 ==> 4.0 * x <= m;
    assert 3 * (n - 1) <= 4 * c ==> 3.0 * m <= 4.0 * x;
    QuarterOf(x, m);
    hide Along;
  }

  lemma QuarterOf(x: real, m: real)
    requires m > 0.0
    ensures 4.0 * x <= m ==> x / m <= 0.25
    ensures 3.0 * m <= 4.0 * x ==> x / m >= 0.75
  {
    var q := x / m;
    assert q * m == x;
    assert q > 0.25 ==> q * m > 0.25 * m;
    assert q < 0.75 ==> q * m < 0.75 * m;
  }
}
