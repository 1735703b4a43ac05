/** Byte stuffing of the JVS link, mask and unmask of mxjvs.c: a sync or mark byte after the
    first is sent as a mark followed by the byte less one. */
module JvsWire {
  import opened Bits
  import opened Wrappers

  const SYNC: byte := 0xE0
  const MARK: byte := 0xD0

  function Stuff(b: byte): (w: seq<byte>)
    ensures 1 <= |w| <= 2
  {
    if b == SYNC || b == MARK then [MARK, b - 1] else [b]
  }

  function MaskTail(raw: seq<byte>): (w: seq<byte>)
    ensures |raw| <= |w| <= 2 * |raw|
  {
    if raw == [] then [] else MaskTail(raw[..|raw| - 1]) + Stuff(raw[|raw| - 1])
  }

  function Masked(raw: seq<byte>): (w: seq<byte>)
    requires raw != []
    ensures 1 <= |w| <= 2 * |raw| - 1
  {
    [raw[0]] + MaskTail(raw[1..])
  }

  /** The byte after an escape mark stands for its successor, wrapping at 255. */
  function Inc(b: byte): byte {
    if b == 255 then 0 else b + 1
  }

  function Glue(pre: seq<byte>, o: Option<seq<byte>>): (r: Option<seq<byte>>)
  {
    if o.None? then None else Some(pre + o.value)
  }

  lemma GlueGlue(a: seq<byte>, b: seq<byte>, o: Option<seq<byte>>)
    ensures Glue(a, Glue(b, o)) == Glue(a + b, o) && Glue([], o) == o
  {
    if o.Some? {
      assert a + (b + o.value) == a + b + o.value;
      assert [] + o.value == o.value;
    }
  }

  /** None where the wire form ends in the middle of an escape. */
  function UnmaskTail(w: seq<byte>): (o: Option<seq<byte>>)
    ensures o.Some? ==> |o.value| <= |w|
  {
    if w == [] then Some([])
    else if w[0] != MARK then Glue([w[0]], UnmaskTail(w[1..]))
    else if |w| == 1 then None
    else Glue([Inc(w[1])], UnmaskTail(w[2..]))
  }

  function Unmasked(w: seq<byte>): (o: Option<seq<byte>>)
  {
    if w == [] then None else Glue([w[0]], UnmaskTail(w[1..]))
  }

  lemma {:induction false} UnmaskConcat(a: seq<byte>, w: seq<byte>)
    requires UnmaskTail(a).Some?
    ensures UnmaskTail(a + w) == Glue(UnmaskTail(a).value, UnmaskTail(w))
  {
    if a == [] {
      assert a + w == w;
      GlueGlue([], [], UnmaskTail(w));
    } else if a[0] != MARK {
      assert (a + w)[1..] == a[1..] + w;
      UnmaskConcat(a[1..], w);
      GlueGlue([a[0]], UnmaskTail(a[1..]).value, UnmaskTail(w));
    } else {
      assert (a + w)[2..] == a[2..] + w;
      UnmaskConcat(a[2..], w);
      GlueGlue([Inc(a[1])], UnmaskTail(a[2..]).value, UnmaskTail(w));
    }
  }

  lemma UnmaskStuff(b: byte)
    ensures UnmaskTail(Stuff(b)) == Some([b])
  {
    var w := Stuff(b);
    assert UnmaskTail([]) == Some([]);
    if |w| == 2 { assert w[2..] == []; } else { assert w[1..] == []; }
    var e: seq<byte> := [];
    assert [b] + e == [b];
  }

  lemma {:induction false} UnmaskMaskTail(raw: seq<byte>)
    ensures UnmaskTail(MaskTail(raw)) == Some(raw)
  {
    if raw != [] {
      var n := |raw| - 1;
      UnmaskMaskTail(raw[..n]);
      UnmaskStuff(raw[n]);
      UnmaskConcat(MaskTail(raw[..n]), Stuff(raw[n]));
      assert raw == raw[..n] + [raw[n]];
    }
  }

  /** Every frame survives the wire. */
  lemma UnmaskMask(raw: seq<byte>)
    requires raw != []
    ensures Unmasked(Masked(raw)) == Some(raw)
  {
    hide MaskTail, UnmaskTail;
    UnmaskMaskTail(raw[1..]);
    assert Masked(raw)[1..] == MaskTail(raw[1..]);
    assert raw == [raw[0]] + raw[1..];
  }

  /** After the first byte the sync byte never appears on the wire, so it always starts a frame. */
  lemma {:induction false} NoSync(raw: seq<byte>, i: nat)
    requires raw != [] && 1 <= i < |Masked(raw)|
    ensures Masked(raw)[i] != SYNC
  {
    NoSyncTail(raw[1..], i - 1);
  }

  lemma {:induction false} NoSyncTail(raw: seq<byte>, i: nat)
    requires i < |MaskTail(raw)|
    ensures MaskTail(raw)[i] != SYNC
  {
    var n := |raw| - 1;
    if i < |MaskTail(raw[..n])| {
      NoSyncTail(raw[..n], i);
    } else {
      assert MaskTail(raw)[i] == Stuff(raw[n])[i - |MaskTail(raw[..n])|];
    }
  }

  /** unmask: -1 if the frame is empty, ends inside an escape or does not fit. */
  method Unmask(input: seq<byte>, raw: array<byte>, cap: nat) returns (r: int)
    requires cap <= raw.Length
    modifies raw
    ensures var o := Unmasked(input);
            if o.Some? && |o.value| <= cap then r == |o.value| && raw[..r] == o.value else r == -1
  {
    if |input| < 1 || cap < 1 { return -1; }
    hide UnmaskTail, Glue, Inc;
    raw[0] := input[0];
    var j, i := 1, 1;
    ghost var o := UnmaskTail(input[1..]);
    assert raw[1..1] == [];
    GlueGlue([], [], o);
    while i < |input|
      invariant 1 <= i <= |input| && 1 <= j <= cap && raw[0] == input[0]
      invariant o == Glue(raw[1..j], UnmaskTail(input[i..]))
      decreases |input| - i
    {
      TailStep(input, i, raw[1..j]);
      if j >= cap {
        TooLong(input[0], raw[1..j], UnmaskTail(input[i..]));
        return -1;
      }
      ghost var head := raw[1..j];
      if input[i] == MARK {
        i := i + 1;
        if i >= |input| {
          GlueNone([input[0]], head);
          return -1;
        }
        raw[j] := Inc(input[i]);
      } else {
        raw[j] := input[i];
      }
      j := j + 1;
      i := i + 1;
      assert raw[1..j] == head + [raw[j - 1]];
    }
    assert raw[..j] == [raw[0]] + raw[1..j];
    TailDone(input[0], raw[1..j], input);
    r := j;
  }

  lemma TailStep(input: seq<byte>, i: nat, head: seq<byte>)
    requires i < |input|
    ensures var o := UnmaskTail(input[i..]);
            if input[i] != MARK then
              Glue(head, o) == Glue(head + [input[i]], UnmaskTail(input[i + 1..])) && (o.Some? ==> |o.value| >= 1)
            else if i + 1 == |input| then o.None?
            else Glue(head, o) == Glue(head + [Inc(input[i + 1])], UnmaskTail(input[i + 2..])) && (o.Some? ==> |o.value| >= 1)
  {
    if input[i] != MARK {
      assert input[i..][1..] == input[i + 1..];
      GlueGlue(head, [input[i]], UnmaskTail(input[i + 1..]));
    } else if i + 1 < |input| {
      assert input[i..][2..] == input[i + 2..];
      GlueGlue(head, [Inc(input[i + 1])], UnmaskTail(input[i + 2..]));
    }
  }

  lemma TooLong(b: byte, head: seq<byte>, o: Option<seq<byte>>)
    requires o.Some? ==> |o.value| >= 1
    ensures var r := Glue([b], Glue(head, o)); r.Some? ==> |r.value| > 1 + |head|
  {
  }

  lemma GlueNone(a: seq<byte>, b: seq<byte>)
    ensures Glue(a, Glue(b, None)) == None
  {
  }

  lemma TailDone(b: byte, head: seq<byte>, input: seq<byte>)
    ensures Glue([b], Glue(head, UnmaskTail(input[|input|..]))) == Some([b] + head)
  {
    assert input[|input|..] == [];
    assert head + [] == head;
  }

  /** mask: -1 if the wire form does not fit. */
  method Mask(raw: seq<byte>, wire: array<byte>, cap: nat) returns (r: int)
    requires raw != [] && cap <= wire.Length
    modifies wire
    ensures if |Masked(raw)| <= cap then r == |Masked(raw)| && wire[..r] == Masked(raw) else r == -1
  {
    hide Masked, Stuff;
    if cap < 1 { return -1; }
    MaskFirst(raw);
    wire[0] := raw[0];
    var j := 1;
    for i := 1 to |raw|
      invariant 1 <= j <= cap && wire[..j] == Masked(raw[..i])
    {
      MaskStep(raw, i);
      MaskMono(raw, i + 1);
      StuffIs(raw[i]);
      ghost var head := wire[..j];
      var b := raw[i];
      if b == SYNC || b == MARK {
        if j + 2 > cap { return -1; }
        wire[j], wire[j + 1] := MARK, b - 1;
        j := j + 2;
      } else {
        if j >= cap { return -1; }
        wire[j] := b;
        j := j + 1;
      }
      assert wire[..j] == head + Stuff(b);
    }
    assert raw[..|raw|] == raw;
    r := j;
  }

  lemma MaskFirst(raw: seq<byte>)
    requires raw != []
    ensures Masked(raw[..1]) == [raw[0]]
  {
  }

  lemma StuffIs(b: byte)
    ensures Stuff(b) == if b == SYNC || b == MARK then [MARK, b - 1] else [b]
  {
  }

  lemma MaskStep(raw: seq<byte>, i: nat)
    requires 1 <= i < |raw|
    ensures Masked(raw[..i + 1]) == Masked(raw[..i]) + Stuff(raw[i])
  {
    assert raw[..i + 1][1..][..i - 1] == raw[..i][1..];
  }

  lemma {:induction false} MaskMono(raw: seq<byte>, i: nat)
    requires 1 <= i <= |raw|
    ensures |Masked(raw[..i])| <= |Masked(raw)|
    decreases |raw| - i
  {
    if i == |raw| {
      assert raw[..i] == raw;
    } else {
      MaskStep(raw, i);
      MaskMono(raw, i + 1);
    }
  }
}
