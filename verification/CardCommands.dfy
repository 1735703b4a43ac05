/**
 Every command of the card reader in bytes: how long it is, what is answered, and what
 it changes, in numbers.
 */
module CardCommands {
  import opened Bits
  import opened Buffers
  import opened Card

  /** A complete command: nine bytes from 0x2D on, five from 0xAD, three from 0x68 and 0x0D, two from
      0xB8, and one from every other. */
  predicate Complete(cmd: seq<byte>) {
    && cmd != []
    && (cmd[0] == 0x2D ==> |cmd| == 9)
    && (cmd[0] == 0xAD ==> |cmd| == 5)
    && (cmd[0] == 0x68 || cmd[0] == 0x0D ==> |cmd| == 3)
    && (cmd[0] == 0xB8 ==> |cmd| == 2)
    && (cmd[0] !in {0x2D, 0xAD, 0x68, 0x0D, 0xB8} ==> |cmd| == 1)
  }

  lemma CompleteIs(cmd: seq<byte>)
    ensures Complete(cmd) <==> IsCommand(cmd)
  {
  }

  /** Until its last byte a command changes nothing and queues nothing; with its last byte it is over. */
  lemma LastByteDecides(s: State, cmd: seq<byte>, k: nat)
    requires s.Valid() && s.rx == [] && Complete(cmd) && k < |cmd|
    ensures OnWrite(s, cmd[..k]) == s.(rx := cmd[..k])
    ensures OnWrite(s, cmd).rx == [] && OnWrite(s, cmd).lastOp == cmd[0] && OnWrite(s, cmd).cmds == s.cmds + 1
    ensures OnWrite(s, cmd).queue == Reply(s, cmd[0])
  {
    hide Complete, Reply, OnWrite, CmdLen;
    CompleteIs(cmd);
    assert s.(rx := []) == s && [] + cmd[..k] == cmd[..k] && [] + cmd == cmd;
    WritePart(s, [], cmd[..k], cmd);
    WritePart(s, [], cmd, cmd);
  }

  /** A reply, whatever the pieces in which the command was written and the reply read. */
  lemma Delivers(s: State, es: seq<Event>, cmd: seq<byte>)
    requires s.Valid() && s.rx == [] && s.queue == [] && Complete(cmd) && Cycle(s, es, cmd)
    ensures Delivered(s, es) == Reply(s, cmd[0])
  {
    hide Complete, Reply, Play, Cycle, IsCommand;
    CompleteIs(cmd);
    CycleDelivers(s, es, cmd);
  }

  lemma Acknowledgements(s: State, es: seq<Event>, cmd: seq<byte>)
    requires s.Valid() && s.rx == [] && s.queue == [] && Complete(cmd) && Cycle(s, es, cmd)
    ensures cmd[0] in {0xF7, 0x28, 0x38, 0x48, 0x68, 0xB8} ==> Delivered(s, es) == [0x0A]
    ensures cmd[0] == 0x58 ==> Delivered(s, es) == [0x0A, 0x1A]
    ensures cmd[0] == 0x88 ==> Delivered(s, es) == [0x0A] + Fill<byte>(18, 0)
    ensures cmd[0] == 0x2D || cmd[0] == 0xAD ==> Delivered(s, es) == [0x8B]
    ensures cmd[0] == 0x6D ==> Delivered(s, es) == [0x4B, 0, 0]
    ensures cmd[0] == 0x1D ==> Delivered(s, es) == [0xAB] + Fill<byte>(8, 0)
  {
    hide Complete, Cycle, Delivered, Fill;
    Delivers(s, es, cmd);
  }

  /** A poll: type and serial number of the card, high byte first, or 0x5A without one. */
  lemma Poll(s: State, es: seq<Event>)
    requires s.Valid() && s.rx == [] && s.queue == [] && Cycle(s, es, [0x4D])
    ensures Delivered(s, es)
            == if s.present
               then [0x0B, 0x1A, s.cardType, s.uid / 0x100_0000, s.uid / 0x1_0000 % 256, s.uid / 256 % 256, s.uid % 256, 0, 0]
               else [0x5A]
  {
    hide Cycle, Delivered;
    Delivers(s, es, [0x4D]);
  }

  /** The capacity of the card: 1984, 960 or 4032 bytes, high byte first. */
  lemma CapacityOf(s: State, es: seq<Event>, op: byte)
    requires s.Valid() && s.rx == [] && s.queue == [] && op in {0x8D, 0xCD, 0xED} && Cycle(s, es, [op])
    ensures Delivered(s, es)
            == if s.cardType == 0x36 then [0x8B, 0x07, 0xC0]
               else if s.cardType == 0xC9 then [0x8B, 0x03, 0xC0] else [0x8B, 0x0F, 0xC0]
  {
    hide Cycle, Delivered;
    Delivers(s, es, [op]);
  }

  /** A read: with a card 128 bytes from the cursor on, past 0x1008 zeros, and the cursor moves on;
      without one zeros, and it stays. */
  lemma ReadsCard(s: State, es: seq<Event>, x: byte, y: byte, i: nat)
    requires s.Valid() && s.rx == [] && s.queue == [] && Cycle(s, es, [0x0D, x, y]) && i < 128
    ensures var d := Delivered(s, es);
            && |d| == 129 && d[0] == 0x2B && After(s, es).cursor == s.cursor + (if s.present then 128 else 0)
            && d[i + 1] == if s.present && s.cursor + i < 0x1008 then s.image[s.cursor + i] else 0
  {
    hide Cycle, Play;
    var cmd: seq<byte> := [0x0D, x, y];
    CompleteIs(cmd);
    CycleDelivers(s, es, cmd);
    var data := if s.present then Window(s.image, s.cursor, 128) else Fill<byte>(128, 0);
    assert Reply(s, 0x0D) == [0x2B] + data;
    assert ([0x2B] + data)[i + 1] == data[i];
  }

  /** Any other byte is a command of its own that is not answered. */
  lemma NotAnswered(s: State, es: seq<Event>, op: byte)
    requires s.Valid() && s.rx == [] && s.queue == [] && Cycle(s, es, [op])
    requires op !in {0xF7, 0x28, 0x38, 0x48, 0x58, 0x88, 0x4D, 0x8D, 0xCD, 0xED, 0x6D, 0x1D, 0x2D, 0xAD, 0x68, 0x0D, 0xB8}
    ensures Delivered(s, es) == []
  {
    hide Cycle, Delivered;
    Delivers(s, es, [op]);
  }

  /** What commands leave in the registers: 0x2D rewinds, 0xAD sets the address, high byte first, and no
      command changes the card. */
  lemma Registers(s: State, es: seq<Event>, cmd: seq<byte>)
    requires s.Valid() && s.rx == [] && s.queue == [] && Complete(cmd) && Cycle(s, es, cmd)
    ensures var t := After(s, es);
            && t.rx == [] && t.present == s.present && t.uid == s.uid && t.cardType == s.cardType && t.image == s.image
            && (cmd[0] == 0x2D ==> t.cursor == 0 && t.readLen == 0)
            && (cmd[0] == 0x0D && s.present ==> t.cursor == s.cursor + 128 && s.readLen == t.readLen + Min(s.readLen, 128))
            && (cmd[0] != 0x2D && (cmd[0] != 0x0D || !s.present) ==> t.cursor == s.cursor && t.readLen == s.readLen)
            && t.writeAddr == if cmd[0] != 0xAD then s.writeAddr
                              else cmd[1] as nat * 0x100_0000 + cmd[2] as nat * 0x1_0000 + cmd[3] as nat * 256 + cmd[4] as nat
  {
    hide Cycle, Play, Reply;
    CompleteIs(cmd);
    CycleDelivers(s, es, cmd);
  }
}
