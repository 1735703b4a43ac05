/** What holds of the JVS board over every run of input samples and frames from power-on. */
module JvsRuns {
  import opened Bits
  import opened Wrappers
  import opened JvsWire
  import opened JvsBoard
  import opened JvsFrame

  datatype Event = Sample(i: Input) | Frame(input: seq<byte>)

  predicate ValidEvent(e: Event) {
    e.Sample? ==> e.i.analogX < 0x1_0000 && e.i.analogY < 0x1_0000
  }

  predicate ValidEvents(es: seq<Event>) {
    forall k | 0 <= k < |es| :: ValidEvent(es[k])
  }

  /** A board with a ledger: coins ever inserted and coins ever taken by accepted decreases. */
  datatype Ledger = Ledger(board: Board, inserted: nat, taken: nat)

  function Advance(l: Ledger, e: Event): (r: Ledger)
    requires l.board.Shaped() && ValidEvent(e)
    ensures r.board.Shaped()
  {
    match e
    case Sample(i) =>
      Ledger(Sampled(l.board, i), l.inserted + if i.coin && !l.board.coinPrev then 1 else 0, l.taken)
    case Frame(input) =>
      match React(l.board, input)
      case Ignored => l
      case Ran(x) => Ledger(x.board, l.inserted, l.taken + x.taken)
  }

  function Play(l: Ledger, es: seq<Event>): (r: Ledger)
    requires l.board.Shaped() && ValidEvents(es)
    ensures r.board.Shaped()
    decreases |es|
  {
    if es == [] then l else Play(Advance(l, es[0]), es[1..])
  }

  predicate Good(b: Board) {
    && b.Shaped() && b.coin[1] == 0 && (b.sense == 1 ==> b.address == 0xFF)
    && b.sw[0] < 0x2000 && b.sw[1] == 0
  }

  /** Every coin inserted is still counted, was taken, or went with a wrap of the 16-bit counter. */
  predicate Balanced(l: Ledger)
    requires l.board.Shaped()
  {
    l.board.coin[0] + l.taken <= l.inserted && (l.inserted - l.taken - l.board.coin[0]) % 0x1_0000 == 0
  }

  lemma CommandKeeps(x: Exec, c: Cmd)
    requires Good(x.board)
    ensures Good(Apply(x, c).board)
    ensures Apply(x, c).board.coin[0] + Apply(x, c).taken == x.board.coin[0] + x.taken
  {
    hide Clip, Report;
  }

  lemma {:induction false} RunKeeps(p: seq<byte>, i: nat, x: Exec)
    requires i <= |p| && Good(x.board)
    ensures Good(Run(p, i, x).board)
    ensures Run(p, i, x).board.coin[0] + Run(p, i, x).taken == x.board.coin[0] + x.taken
    decreases |p| - i
  {
    hide Apply, Parse, Next;
    if i < |p| {
      CommandKeeps(x, Parse(p, i));
      RunKeeps(p, Next(p, i), Apply(x, Parse(p, i)));
    }
  }

  lemma AdvanceKeeps(l: Ledger, e: Event)
    requires Good(l.board) && Balanced(l) && ValidEvent(e)
    ensures Good(Advance(l, e).board) && Balanced(Advance(l, e))
  {
    hide Run, Unmasked, ByteSum, Buttons;
    if e.Frame? && React(l.board, e.input).Ran? {
      RunKeeps(Payload(Unmasked(e.input).value), 0, Start(l.board));
    }
  }

  lemma {:induction false} PlayKeeps(l: Ledger, es: seq<Event>)
    requires Good(l.board) && Balanced(l) && ValidEvents(es)
    ensures Good(Play(l, es).board) && Balanced(Play(l, es))
    decreases |es|
  {
    hide Advance, Balanced;
    if es != [] {
      assert ValidEvent(es[0]);
      AdvanceKeeps(l, es[0]);
      PlayKeeps(Advance(l, es[0]), es[1..]);
    }
  }

  /** From power-on, whatever is sampled and whatever is written to the port: coins taken never exceed
      coins inserted, and the counter is the difference modulo 2^16; the second slot stays empty; the
      sense line is only up while the address is unassigned; the switch words stay below 2^13. */
  lemma CoinsConserved(es: seq<Event>)
    requires ValidEvents(es)
    ensures var l := Play(Ledger(PowerOn(), 0, 0), es);
            && l.taken <= l.inserted
            && l.board.coin[0] == (l.inserted - l.taken) % 0x1_0000
            && (l.inserted < 0x1_0000 ==> l.board.coin[0] == l.inserted - l.taken)
            && l.board.coin[1] == 0
            && (l.board.sense == 1 ==> l.board.address == 0xFF)
            && l.board.sw[0] < 0x2000 && l.board.sw[1] < 0x2000
  {
    hide Play, PowerOn;
    FreshGood();
    var l := Play(Ledger(PowerOn(), 0, 0), es);
    PlayKeeps(Ledger(PowerOn(), 0, 0), es);
    Residue(l.board.coin[0], l.inserted, l.taken);
  }

  lemma FreshGood()
    ensures Good(PowerOn()) && Balanced(Ledger(PowerOn(), 0, 0))
  {
  }

  lemma Residue(c: nat, i: nat, t: nat)
    requires c < 0x1_0000 && c + t <= i && (i - t - c) % 0x1_0000 == 0
    ensures c == (i - t) % 0x1_0000
  {
  }

  /** A frame that is cut short, lacks the sync byte, lies about its length or fails its checksum
      leaves the board unchanged. */
  lemma RejectedUnchanged(l: Ledger, input: seq<byte>)
    requires l.board.Shaped()
    requires var o := Unmasked(input); o.None? || |o.value| > 512 || !Accepts(o.value)
    ensures Advance(l, Frame(input)) == l
  {
  }
}
