/**
 The card reader of card.c: commands of fixed length reassembled from arbitrary
 writes, one reply queued at a time, and the 128-byte window reads that dump a
 card.
 */
module Card {
  import opened Bits
  import opened Buffers

  const IMAGE: nat := 0x1008
  const RXCAP: nat := 32
  const TXCAP: nat := 256

  /** card_cmd_len. */
  function CmdLen(op: byte): (n: nat)
    ensures 1 <= n <= 9
  {
    if op == 0x2D then 9
    else if op == 0xAD then 5
    else if op == 0x68 || op == 0x0D then 3
    else if op == 0xB8 then 2
    else 1
  }

  /** queue: the part of the last reply not read yet. */
  datatype State = State(
    rx: seq<byte>, queue: seq<byte>, present: bool, uid: nat, cardType: byte, image: seq<byte>,
    cursor: nat, readLen: nat, writeAddr: nat, lastOp: byte, cmds: nat)
  {
    /** The bytes received are always a strict prefix of one command. */
    predicate Valid() {
      && uid < 0x1_0000_0000 && |image| == IMAGE && |queue| <= TXCAP
      && (rx != [] ==> |rx| < CmdLen(rx[0]))
    }
  }

  function Init(image: seq<byte>): (s: State)
    requires |image| == IMAGE
    ensures s.Valid()
  {
    State([], [], false, 0, 0xFF, image, 0, 0, 0, 0, 0)
  }

  /** Byte p of a card, zero past its end. */
  function CardByte(image: seq<byte>, p: nat): byte {
    if p < |image| then image[p] else 0
  }

  /** n bytes of a card from position off on, zero-padded. */
  function Window(image: seq<byte>, off: nat, n: nat): (w: seq<byte>)
    ensures |w| == n && forall i | 0 <= i < n :: w[i] == CardByte(image, off + i)
  {
    if n == 0 then [] else Window(image, off, n - 1) + [CardByte(image, off + n - 1)]
  }

  function Capacity(cardType: byte): (n: nat)
    ensures n < 0x1_0000
  {
    if cardType == 0x36 then 0x7C0 else if cardType == 0xC9 then 0x3C0 else 0xFC0
  }

  /** The reply to a command; unknown commands get none. */
  function Reply(s: State, op: byte): (r: seq<byte>)
    requires s.Valid()
    ensures |r| <= 129
  {
    if op in {0xF7, 0x28, 0x38, 0x48, 0x68, 0xB8} then [0x0A]
    else if op == 0x58 then [0x0A, 0x1A]
    else if op == 0x88 then [0x0A] + Fill(18, 0)
    else if op == 0x4D then if s.present then [0x0B, 0x1A, s.cardType] + Big32(s.uid) + [0, 0] else [0x5A]
    else if op == 0x0D then [0x2B] + if s.present then Window(s.image, s.cursor, 128) else Fill(128, 0)
    else if op == 0x2D || op == 0xAD then [0x8B]
    else if op in {0x8D, 0xCD, 0xED} then [0x8B, Capacity(s.cardType) / 256, Capacity(s.cardType) % 256]
    else if op == 0x6D then [0x4B, 0, 0]
    else if op == 0x1D then [0xAB] + Fill(8, 0)
    else []
  }

  function Address(cmd: seq<byte>): nat
    requires |cmd| >= 5
  {
    var a: nat, b: nat, c: nat, d: nat := cmd[1], cmd[2], cmd[3], cmd[4];
    ((a * 256 + b) * 256 + c) * 256 + d
  }

  /** A complete command: whatever was left of the previous reply is gone. */
  function Respond(s: State, cmd: seq<byte>): (r: State)
    requires s.Valid() && cmd != [] && |cmd| == CmdLen(cmd[0])
    ensures r.Valid() && r.rx == [] && r.image == s.image && r.present == s.present
  {
    var op := cmd[0];
    var t := s.(rx := [], queue := Reply(s, op), lastOp := op, cmds := s.cmds + 1);
    if op == 0x0D && s.present then t.(cursor := s.cursor + 128, readLen := s.readLen - Min(s.readLen, 128))
    else if op == 0x2D then t.(cursor := 0, readLen := 0)
    else if op == 0xAD then t.(writeAddr := Address(cmd))
    else t
  }

  function OnByte(s: State, b: byte): (r: State)
    requires s.Valid()
    ensures r.Valid()
  {
    var rx := s.rx + [b];
    if |rx| < CmdLen(rx[0]) then s.(rx := rx) else Respond(s, rx)
  }

  function OnWrite(s: State, buf: seq<byte>): (r: State)
    requires s.Valid()
    ensures r.Valid()
  {
    if buf == [] then s else OnByte(OnWrite(s, buf[..|buf| - 1]), buf[|buf| - 1])
  }

  function ReadOut(s: State, cap: nat): seq<byte> {
    s.queue[..Min(|s.queue|, cap)]
  }

  function OnRead(s: State, cap: nat): (r: State)
    requires s.Valid()
    ensures r.Valid()
  {
    s.(queue := s.queue[Min(|s.queue|, cap)..])
  }

  lemma {:induction false} ChunkedWrite(s: State, a: seq<byte>, b: seq<byte>)
    requires s.Valid()
    ensures OnWrite(s, a + b) == OnWrite(OnWrite(s, a), b)
  {
    hide OnByte;
    if b == [] {
      assert a + b == a;
    } else {
      assert (a + b)[..|a + b| - 1] == a + b[..|b| - 1];
      ChunkedWrite(s, a, b[..|b| - 1]);
    }
  }

  // ------------------------------------------------------------ replies read back by the game

  /** The 32-bit value at position k, high byte first. */
  function Word32(s: seq<byte>, k: nat): (v: nat)
    requires k + 4 <= |s|
  {
    var a: nat, b: nat, c: nat, d: nat := s[k], s[k + 1], s[k + 2], s[k + 3];
    ((a * 256 + b) * 256 + c) * 256 + d
  }

  lemma Big32Back(v: nat)
    requires v < 0x1_0000_0000
    ensures Word32(Big32(v), 0) == v
  {
    var h := v / 0x1_0000;
    assert v / 0x100_0000 == h / 256;
    assert v / 256 == 256 * h + v / 256 % 256;
  }

  /** A poll tells whether a card is there and, if so, its type and serial number; the capacity
      query tells the payload size belonging to that type. */
  lemma PollBack(s: State)
    requires s.Valid()
    ensures var r := Reply(s, 0x4D);
            && (|r| == 9 <==> s.present) && (r == [0x5A] <==> !s.present)
            && (s.present ==> r[0] == 0x0B && r[2] == s.cardType && Word32(r, 3) == s.uid)
    ensures var q := Reply(s, 0x8D);
            var hi: nat, lo: nat := q[1], q[2];
            hi * 256 + lo == if s.cardType == 0x36 then 1984 else if s.cardType == 0xC9 then 960 else 4032
  {
    hide Big32;
    Big32Back(s.uid);
  }

  // ------------------------------------------------------------ one command

  datatype Event = Write(buf: seq<byte>) | Read(cap: nat)

  /** The reader and everything read from it. */
  datatype Trace = Trace(s: State, out: seq<byte>)

  function Advance(t: Trace, e: Event): (r: Trace)
    requires t.s.Valid()
    ensures r.s.Valid()
  {
    match e
    case Write(buf) => Trace(OnWrite(t.s, buf), t.out)
    case Read(cap) => Trace(OnRead(t.s, cap), t.out + ReadOut(t.s, cap))
  }

  function Play(t: Trace, es: seq<Event>): (r: Trace)
    requires t.s.Valid()
    ensures r.s.Valid()
  {
    if es == [] then t else Advance(Play(t, es[..|es| - 1]), es[|es| - 1])
  }

  /** Everything written, in order. */
  function Written(es: seq<Event>): seq<byte> {
    if es == [] then []
    else Written(es[..|es| - 1]) + match es[|es| - 1] case Write(buf) => buf case Read(_) => []
  }

  predicate IsCommand(cmd: seq<byte>) {
    cmd != [] && |cmd| == CmdLen(cmd[0])
  }

  /** Part of a command only accumulates; its last byte triggers the response. */
  lemma {:induction false} WritePart(s: State, w: seq<byte>, buf: seq<byte>, cmd: seq<byte>)
    requires s.Valid() && s.rx == [] && IsCommand(cmd) && |w| < |cmd| && w + buf <= cmd
    ensures s.(rx := w).Valid()
    ensures OnWrite(s.(rx := w), buf) == if |w + buf| < |cmd| then s.(rx := w + buf) else Respond(s, cmd)
  {
    hide Respond;
    if buf == [] {
      assert w + buf == w;
    } else {
      var n := |buf| - 1;
      assert w + buf[..n] <= cmd;
      WritePart(s, w, buf[..n], cmd);
      assert w + buf[..n] + [buf[n]] == w + buf;
      RespondRx(s, w + buf[..n], w + buf);
      if |w + buf| == |cmd| { assert w + buf == cmd; }
    }
  }

  lemma RespondRx(s: State, w: seq<byte>, cmd: seq<byte>)
    requires s.Valid() && s.rx == [] && s.(rx := w).Valid()
    ensures IsCommand(cmd) ==> Respond(s.(rx := w), cmd) == Respond(s, cmd)
  {
    hide Reply;
    ReplyRx(s, w);
  }

  lemma ReplyRx(s: State, w: seq<byte>)
    requires s.Valid() && s.(rx := w).Valid()
    ensures forall op: byte :: Reply(s.(rx := w), op) == Reply(s, op)
  {
  }

  /** While a command is being written, in any pieces and with any reads in between, nothing is
      delivered; once it is complete, what has been read and what is queued make up its reply. */
  lemma {:induction false} CommandRun(s: State, es: seq<Event>, cmd: seq<byte>)
    requires s.Valid() && s.rx == [] && s.queue == [] && IsCommand(cmd) && Written(es) <= cmd
    ensures var t := Play(Trace(s, []), es);
            if |Written(es)| < |cmd| then t == Trace(s.(rx := Written(es)), [])
            else t.s == Respond(s, cmd).(queue := t.s.queue) && t.out + t.s.queue == Reply(s, cmd[0])
  {
    hide OnWrite, Reply, Respond, CmdLen;
    if es == [] {
      assert s.(rx := []) == s;
    } else {
      var init, e := es[..|es| - 1], es[|es| - 1];
      var w := Written(init);
      assert w <= Written(es);
      CommandRun(s, init, cmd);
      var t := Play(Trace(s, []), init);
      match e
      case Write(buf) =>
        if |w| < |cmd| {
          WritePart(s, w, buf, cmd);
          ReplyQueued(s, cmd);
          if |w + buf| == |cmd| { assert [] + Reply(s, cmd[0]) == Reply(s, cmd[0]); }
        } else {
          assert buf == [];
          NoWrite(t.s);
        }
      case Read(cap) =>
        assert Written(es) == w;
        ReadSplit(t, cap);
    }
  }

  lemma ReplyQueued(s: State, cmd: seq<byte>)
    requires s.Valid() && IsCommand(cmd)
    ensures Respond(s, cmd).queue == Reply(s, cmd[0])
  {
    hide Reply;
  }

  lemma NoWrite(s: State)
    requires s.Valid()
    ensures OnWrite(s, []) == s
  {
  }

  lemma ReadSplit(t: Trace, cap: nat)
    requires t.s.Valid()
    ensures var r := Advance(t, Read(cap));
            && r.out + r.s.queue == t.out + t.s.queue && r.s == t.s.(queue := r.s.queue)
            && (t.s.queue == [] ==> r == t)
  {
    var k := Min(|t.s.queue|, cap);
    assert t.s.queue == t.s.queue[..k] + t.s.queue[k..];
    assert t.out + t.s.queue[..k] + t.s.queue[k..] == t.out + t.s.queue;
    if t.s.queue == [] { assert t.out + [] == t.out; }
  }

  // ------------------------------------------------------------ dumping a card

  /** A cycle writes exactly the given bytes, in any pieces, and reads until the reply is drained. */
  predicate Cycle(s: State, es: seq<Event>, cmd: seq<byte>) {
    s.Valid() && Written(es) == cmd && Play(Trace(s, []), es).s.queue == []
  }

  lemma CycleDelivers(s: State, es: seq<Event>, cmd: seq<byte>)
    requires s.Valid() && s.rx == [] && s.queue == [] && IsCommand(cmd) && Cycle(s, es, cmd)
    ensures Play(Trace(s, []), es) == Trace(Respond(s, cmd).(queue := []), Reply(s, cmd[0]))
  {
    hide Play, Reply, Respond, Written;
    CommandRun(s, es, cmd);
    var t := Play(Trace(s, []), es);
    assert t.out + [] == t.out;
  }

  function After(s: State, es: seq<Event>): State
    requires s.Valid()
  {
    Play(Trace(s, []), es).s
  }

  function Delivered(s: State, es: seq<Event>): seq<byte>
    requires s.Valid()
  {
    Play(Trace(s, []), es).out
  }

  /** A read command: three bytes, of which only the first matters. */
  predicate IsRead(cmd: seq<byte>) {
    |cmd| == 3 && cmd[0] == 0x0D
  }

  /** Each of the cycles is one 0x0D read. */
  predicate ReadCycles(s: State, cycles: seq<seq<Event>>)
    decreases |cycles|
  {
    cycles == []
    || (IsRead(Written(cycles[0])) && Cycle(s, cycles[0], Written(cycles[0]))
        && ReadCycles(After(s, cycles[0]), cycles[1..]))
  }

  /** The data bytes delivered: each reply without its leading acknowledgement. */
  function Dump(s: State, cycles: seq<seq<Event>>): seq<byte>
    requires ReadCycles(s, cycles) && s.Valid()
    decreases |cycles|
  {
    if cycles == [] then []
    else Delivered(s, cycles[0])[Min(1, |Delivered(s, cycles[0])|)..] + Dump(After(s, cycles[0]), cycles[1..])
  }

  lemma WindowConcat(image: seq<byte>, off: nat, m: nat, n: nat)
    ensures Window(image, off, m) + Window(image, off + m, n) == Window(image, off, m + n)
  {
    hide CardByte;
  }

  lemma {:induction false} DumpFrom(s: State, cycles: seq<seq<Event>>)
    requires s.Valid() && s.rx == [] && s.queue == [] && s.present && ReadCycles(s, cycles)
    ensures Dump(s, cycles) == Window(s.image, s.cursor, 128 * |cycles|)
    decreases |cycles|
  {
    hide Play, Window, Written, Cycle, IsRead, CmdLen;
    if cycles == [] {
      NoWindow(s.image, s.cursor);
    } else {
      var cmd := Written(cycles[0]);
      Lengths(cmd);
      CycleDelivers(s, cycles[0], cmd);
      ReadReply(s, cmd);
      var t := After(s, cycles[0]);
      DumpFrom(t, cycles[1..]);
      WindowConcat(s.image, s.cursor, 128, 128 * (|cycles| - 1));
    }
  }

  lemma Lengths(cmd: seq<byte>)
    ensures IsRead(cmd) || (|cmd| == 9 && cmd[0] == 0x2D) ==> IsCommand(cmd)
  {
  }

  lemma NoWindow(image: seq<byte>, off: nat)
    ensures Window(image, off, 0) == []
  {
  }

  lemma ReadReply(s: State, cmd: seq<byte>)
    requires s.Valid() && s.present && IsRead(cmd)
    ensures |Reply(s, 0x0D)| == 129 && Reply(s, cmd[0])[1..] == Window(s.image, s.cursor, 128)
    ensures Respond(s, cmd).cursor == s.cursor + 128
  {
    hide Window;
    assert Reply(s, 0x0D) == [0x2B] + Window(s.image, s.cursor, 128);
  }

  /** After a nine-byte command 0x2D, any number of three-byte reads 0x0D, each written in any pieces
      and drained by reads of any size, deliver the card from its start, zero-padded past its end. */
  lemma CardDump(s: State, start: seq<Event>, cmd: seq<byte>, cycles: seq<seq<Event>>)
    requires s.Valid() && s.rx == [] && s.queue == [] && s.present
    requires |cmd| == 9 && cmd[0] == 0x2D && Cycle(s, start, cmd) && ReadCycles(After(s, start), cycles)
    ensures Delivered(s, start) == [0x8B]
    ensures Dump(After(s, start), cycles) == Window(s.image, 0, 128 * |cycles|)
  {
    hide Play, Window, Written, ReadCycles, Dump;
    Lengths(cmd);
    CycleDelivers(s, start, cmd);
    DumpFrom(After(s, start), cycles);
  }

  // ------------------------------------------------------------ the reader object

  class CardReader {
    const rx: array<byte>
    var rxLen: nat
    const tx: array<byte>
    var txLen: nat
    var txOff: nat
    var present: bool
    var uid: nat
    var cardType: byte
    var image: seq<byte>
    var cursor: nat
    var readLen: nat
    var writeAddr: nat
    var lastOp: byte
    var cmds: nat

    ghost predicate Shaped()
      reads this
    {
      rx.Length == RXCAP && tx.Length == TXCAP && rx != tx && rxLen <= RXCAP && txOff <= txLen <= TXCAP
    }

    ghost function Value(): State
      requires Shaped()
      reads this, rx, tx
    {
      State(rx[..rxLen], tx[txOff..txLen], present, uid, cardType, image, cursor, readLen, writeAddr, lastOp, cmds)
    }

    ghost predicate Valid()
      reads this, rx, tx
    {
      Shaped() && Value().Valid()
    }

    /** card_init, with the image the loader put in. */
    constructor (img: seq<byte>)
      requires |img| == IMAGE
      ensures Valid() && Value() == Init(img) && fresh(rx) && fresh(tx)
    {
      rx := new byte[RXCAP];
      tx := new byte[TXCAP];
      rxLen, txLen, txOff := 0, 0, 0;
      present, uid, cardType, image := false, 0, 0xFF, img;
      cursor, readLen, writeAddr, lastOp, cmds := 0, 0, 0, 0, 0;
    }

    /** emit: there is always room, since a reply takes at most 129 bytes of 256. */
    method Emit(b: byte)
      requires Shaped() && txLen < TXCAP && txOff == 0
      modifies `txLen, tx
      ensures Shaped() && txLen == old(txLen) + 1 && tx[..txLen] == old(tx[..txLen]) + [b]
    {
      if txLen < TXCAP {
        tx[txLen] := b;
        txLen := txLen + 1;
        assert tx[..txLen] == tx[..txLen - 1] + [b];
      }
    }

    method EmitAll(bs: seq<byte>)
      requires Shaped() && txLen + |bs| <= TXCAP && txOff == 0
      modifies `txLen, tx
      ensures Shaped() && txLen == old(txLen) + |bs| && tx[..txLen] == old(tx[..txLen]) + bs
    {
      for i := 0 to |bs|
        invariant Shaped() && txLen == old(txLen) + i && txOff == 0
        invariant tx[..txLen] == old(tx[..txLen]) + bs[..i]
      {
        Emit(bs[i]);
        assert bs[..i + 1] == bs[..i] + [bs[i]];
      }
      assert bs[..|bs|] == bs;
    }

    method EmitWindow()
      requires Shaped() && txLen + 128 <= TXCAP && txOff == 0
      modifies `txLen, tx
      ensures Shaped() && txLen == old(txLen) + 128 && tx[..txLen] == old(tx[..txLen]) + Window(image, cursor, 128)
    {
      hide CardByte;
      for i := 0 to 128
        invariant Shaped() && txLen == old(txLen) + i && txOff == 0
        invariant tx[..txLen] == old(tx[..txLen]) + Window(image, cursor, i)
      {
        Emit(CardByte(image, cursor + i));
        assert Window(image, cursor, i + 1) == Window(image, cursor, i) + [CardByte(image, cursor + i)];
      }
    }

    /** The reader without its buffers. */
    function Bare(): State
      reads this
    {
      State([], [], present, uid, cardType, image, cursor, readLen, writeAddr, lastOp, cmds)
    }

    /** The emit calls of card_build_response. */
    method EmitReply(op: byte)
      requires Shaped() && Bare().Valid() && txLen == 0 && txOff == 0
      modifies `txLen, tx
      ensures Shaped() && tx[..txLen] == Reply(Bare(), op)
    {
      hide Fill, Big32, Capacity, Window;
      assert tx[..0] == [];
      if op in {0xF7, 0x28, 0x38, 0x48, 0x68, 0xB8} {
        EmitAll([0x0A]);
      } else if op == 0x58 {
        EmitAll([0x0A, 0x1A]);
      } else if op == 0x88 {
        EmitAll([0x0A] + Fill(18, 0));
      } else if op == 0x4D {
        EmitAll(if present then [0x0B, 0x1A, cardType] + Big32(uid) + [0, 0] else [0x5A]);
      } else if op == 0x0D {
        EmitAll([0x2B]);
        if present { EmitWindow(); } else { EmitAll(Fill(128, 0)); }
      } else if op == 0x2D || op == 0xAD {
        EmitAll([0x8B]);
      } else if op in {0x8D, 0xCD, 0xED} {
        EmitAll([0x8B, Capacity(cardType) / 256, Capacity(cardType) % 256]);
      } else if op == 0x6D {
        EmitAll([0x4B, 0, 0]);
      } else if op == 0x1D {
        EmitAll([0xAB] + Fill(8, 0));
      }
    }

    /** card_build_response. */
    method BuildResponse()
      requires Shaped() && Bare().Valid() && rxLen > 0 && rxLen == CmdLen(rx[0])
      modifies `txLen, `txOff, `lastOp, `cmds, `cursor, `readLen, `writeAddr, tx
      ensures Shaped() && txOff == 0 && tx[..txLen] == Respond(old(Bare()), rx[..rxLen]).queue
      ensures Bare() == Respond(old(Bare()), rx[..rxLen]).(queue := [])
    {
      hide Reply;
      var op := rx[0];
      ghost var b := Bare();
      txLen, txOff := 0, 0;
      EmitReply(op);
      lastOp := op;
      cmds := cmds + 1;
      if op == 0x0D {
        if present {
          cursor := cursor + 128;
          if readLen > 0 { readLen := readLen - if readLen < 128 then readLen else 128; }
        }
      } else if op == 0x2D {
        cursor, readLen := 0, 0;
      } else if op == 0xAD {
        if rxLen >= 5 { writeAddr := Address(rx[..rxLen]); }
      }
    }

    method WriteByte(b: byte)
      requires Valid()
      modifies `rxLen, `txLen, `txOff, `lastOp, `cmds, `cursor, `readLen, `writeAddr, tx, rx
      ensures Valid() && Value() == OnByte(old(Value()), b)
    {
      hide Reply, CmdLen;
      ghost var v := Value();
      LenBound();
      rxLen := Wrap(rxLen);
      rx[rxLen] := b;
      rxLen := rxLen + 1;
      assert rx[..rxLen] == v.rx + [b];
      if rxLen >= CmdLen(rx[0]) {
        ghost var cmd := rx[..rxLen];
        BuildResponse();
        SameResponse(v, cmd);
        rxLen := 0;
        assert rx[..rxLen] == [] && tx[txOff..txLen] == tx[..txLen];
      }
    }

    /** card_on_write. */
    method Write(buf: seq<byte>)
      requires Valid()
      modifies `rxLen, `txLen, `txOff, `lastOp, `cmds, `cursor, `readLen, `writeAddr, tx, rx
      ensures Valid() && Value() == OnWrite(old(Value()), buf)
    {
      hide OnByte;
      ghost var v := Value();
      assert OnWrite(v, buf[..0]) == v;
      for i := 0 to |buf|
        invariant Valid() && Value() == OnWrite(v, buf[..i])
      {
        assert buf[..i + 1][..i] == buf[..i];
        WriteByte(buf[i]);
      }
      assert buf[..|buf|] == buf;
    }

    /** card_on_read. */
    method Read(out: array<byte>, cap: nat) returns (o: nat)
      requires Valid() && cap <= out.Length && out != tx && out != rx
      modifies `txLen, `txOff, out
      ensures Valid() && Value() == OnRead(old(Value()), cap)
      ensures o == |ReadOut(old(Value()), cap)| && out[..o] == ReadOut(old(Value()), cap)
    {
      ghost var m := tx[..];
      o := Drain(tx, txOff, txLen, out, cap);
      assert tx[..] == m;
      SliceSplit(m, txOff, txLen, o);
      txOff := txOff + o;
      if txOff >= txLen { txLen, txOff := 0, 0; }
    }

    /** card_rx_pending. */
    method Pending() returns (n: int)
      requires Valid()
      ensures n == |Value().queue|
    {
      var avail := txLen - txOff;
      n := if avail > 0 then avail else 0;
    }
  }

  /** The guard against a full receive buffer; WriteByte's contract says it never acts. */
  function Wrap(n: nat): nat {
    if n >= RXCAP then 0 else n
  }

  lemma LenBound()
    ensures forall op: byte :: CmdLen(op) <= 9
  {
  }

  lemma SameResponse(s: State, cmd: seq<byte>)
    requires s.Valid() && IsCommand(cmd)
    ensures var bare := s.(rx := [], queue := []);
            bare.Valid() && Respond(bare, cmd) == Respond(s, cmd)
  {
    hide Reply;
    ReplyBare(s, cmd[0]);
  }

  lemma ReplyBare(s: State, op: byte)
    requires s.Valid()
    ensures Reply(s.(rx := [], queue := []), op) == Reply(s, op)
  {
  }
}
