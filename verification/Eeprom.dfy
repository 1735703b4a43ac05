/**
 The EEPROM and SRAM of mxdevices.c: the CRC-protected STATIC record and its
 re-seeding, the SMBus byte window, and the seekable SRAM.
 */
module Eeprom {
  import opened Buffers
  import opened Words
  import opened Crc32
  import opened CrcDetection

  const EEPROM_BYTES: nat := 8192
  const DUP: nat := 0x1000
  const REC: nat := 32

  function Bv(w: bv32, k: nat): bv8
    requires k < 4
  {
    if k == 0 then (w & 0xff) as bv8
    else if k == 1 then ((w >> 8) & 0xff) as bv8
    else if k == 2 then ((w >> 16) & 0xff) as bv8
    else ((w >> 24) & 0xff) as bv8
  }

  /** m_Crc as it lies in memory. */
  function Word(w: bv32): (s: seq<bv8>)
    ensures |s| == 4
  {
    [Bv(w, 0), Bv(w, 1), Bv(w, 2), Bv(w, 3)]
  }

  /** The check on a STATIC record: the stored CRC is that of the other 28 bytes. */
  predicate Intact(rec: seq<bv8>)
    requires |rec| == REC
  {
    rec[..4] == Word(Crc(rec[4..], 0))
  }

  lemma WordInjective(a: bv32, b: bv32)
    requires Word(a) == Word(b)
    ensures a == b
  {
    WordBytes(a);
    WordBytes(b);
    assert Word(a)[0] == Word(b)[0] && Word(a)[1] == Word(b)[1] && Word(a)[2] == Word(b)[2] && Word(a)[3] == Word(b)[3];
    hide Bv;
  }

  lemma WordBytes(w: bv32)
    ensures w == Wide(Bv(w, 0)) | (Wide(Bv(w, 1)) << 8) | (Wide(Bv(w, 2)) << 16) | (Wide(Bv(w, 3)) << 24)
  {
  }

  /** r and s differ, and only at positions from i up to j. */
  ghost predicate DamagedWithin(r: seq<bv8>, s: seq<bv8>, i: nat, j: nat)
  {
    i <= j <= |r| == |s| && r != s && r[..i] == s[..i] && r[j..] == s[j..]
  }

  lemma SameParts(r: seq<bv8>, s: seq<bv8>, k: nat)
    requires k <= |r| && k <= |s| && r[k..] == s[k..]
    ensures r[..k] == s[..k] ==> r == s
  {
    assert r == r[..k] + r[k..] && s == s[..k] + s[k..];
  }

  lemma MiddleDiffers(r: seq<bv8>, s: seq<bv8>, i: nat, j: nat)
    requires DamagedWithin(r, s, i, j)
    ensures r[i..j] != s[i..j]
  {
    assert r == r[..i] + r[i..j] + r[j..];
    assert s == s[..i] + s[i..j] + s[j..];
  }

  /** Damage to an intact record confined to four consecutive payload bytes, or to the stored
      CRC, is always noticed; in particular any change of a single byte. */
  lemma DamageDetected(r: seq<bv8>, s: seq<bv8>, i: nat, j: nat)
    requires |r| == |s| == REC && Intact(r) && DamagedWithin(r, s, i, j)
    requires j <= i + 4 && (j <= 4 || 4 <= i)
    ensures !Intact(s)
  {
    hide Crc, Word;
    if j <= 4 {
      assert r[4..] == r[j..][4 - j..] == s[j..][4 - j..] == s[4..];
      SameParts(r, s, 4);
    } else {
      var p, x, y, t := r[4..i], r[i..j], s[i..j], r[j..];
      assert r[..4] == r[..i][..4] == s[..i][..4] == s[..4];
      assert s[4..i] == s[..i][4..] == r[..i][4..] == p;
      assert r[4..] == p + x + t && s[4..] == p + y + t;
      MiddleDiffers(r, s, i, j);
      BurstDetected(p, x, y, t, 0);
      if Intact(s) {
        WordInjective(Crc(r[4..], 0), Crc(s[4..], 0));
        assert false;
      }
    }
  }

  lemma OneByteDetected(r: seq<bv8>, k: nat, b: bv8)
    requires |r| == REC && k < REC && b != r[k] && Intact(r)
    ensures !Intact(r[k := b])
  {
    hide Intact;
    var s := r[k := b];
    assert s[..k] == r[..k] && s[k + 1..] == r[k + 1..] && s[k] != r[k];
    DamageDetected(r, s, k, k + 1);
  }

  // ------------------------------------------------------------ seeding

  /** Region 1, not rental, serial ABLN-00100000001. */
  function SeedPayload(): (s: seq<bv8>)
    ensures |s| == REC - 4
  {
    [0, 0, 0, 0, 0, 0, 0, 0, 1, 0, 0,
     65, 66, 76, 78, 45, 48, 48, 49, 48, 48, 48, 48, 48, 48, 48, 49, 0]
  }

  function SeedRecord(): (s: seq<bv8>)
    ensures |s| == REC
  {
    Word(Crc(SeedPayload(), 0)) + SeedPayload()
  }

  lemma SeedIntact()
    ensures Intact(SeedRecord())
  {
    hide Word, Crc, SeedPayload;
    assert SeedRecord()[4..] == SeedPayload();
  }

  function Primary(e: seq<bv8>): (r: seq<bv8>)
    requires |e| == EEPROM_BYTES
    ensures |r| == REC
  {
    e[..REC]
  }

  function Install(e: seq<bv8>, rec: seq<bv8>): (r: seq<bv8>)
    requires |e| == EEPROM_BYTES && |rec| == REC
    ensures |r| == EEPROM_BYTES
  {
    rec + e[REC..DUP] + rec + e[DUP + REC..]
  }

  /** Both copies are written, and only if the primary fails its check. */
  function Seeded(e: seq<bv8>): (r: seq<bv8>)
    requires |e| == EEPROM_BYTES
    ensures |r| == EEPROM_BYTES
  {
    if Intact(Primary(e)) then e
    else Install(e, SeedRecord())
  }

  /** Whatever the EEPROM held, afterwards the primary record is intact; nothing outside the two
      records changes; and seeding again changes nothing. */
  lemma SeededIntact(e: seq<bv8>)
    requires |e| == EEPROM_BYTES
    ensures Intact(Primary(Seeded(e))) && Seeded(Seeded(e)) == Seeded(e)
    ensures Seeded(e)[REC..DUP] == e[REC..DUP] && Seeded(e)[DUP + REC..] == e[DUP + REC..]
    ensures Seeded(e) != e ==> !Intact(Primary(e)) && Primary(Seeded(e)) == SeedRecord()
                               && Seeded(e)[DUP..DUP + REC] == SeedRecord()
  {
    hide Intact, SeedRecord;
    SeedIntact();
    var r := Seeded(e);
    if !Intact(Primary(e)) {
      assert Primary(r) == SeedRecord();
      assert r[DUP..DUP + REC] == SeedRecord();
      assert r[REC..DUP] == e[REC..DUP] && r[DUP + REC..] == e[DUP + REC..];
    }
  }

  // ------------------------------------------------------------ what is stored where

  /** The word stored at the beginning of a record, low byte first. */
  function StoredWord(e: seq<bv8>): bv32
    requires |e| >= 4
  {
    Wide(e[0]) | (Wide(e[1]) << 8) | (Wide(e[2]) << 16) | (Wide(e[3]) << 24)
  }

  lemma WordStored(w: bv32)
    ensures StoredWord(Word(w)) == w
  {
    hide Bv;
    WordBytes(w);
  }

  lemma StoredInjective(r: seq<bv8>, s: seq<bv8>)
    requires |r| == 4 && |s| == 4 && StoredWord(r) == StoredWord(s)
    ensures r == s
  {
    StoredBytes(r[0], r[1], r[2], r[3]);
    StoredBytes(s[0], s[1], s[2], s[3]);
    hide StoredWord;
  }

  lemma StoredBytes(a: bv8, b: bv8, c: bv8, d: bv8)
    ensures var w := StoredWord([a, b, c, d]); Bv(w, 0) == a && Bv(w, 1) == b && Bv(w, 2) == c && Bv(w, 3) == d
  {
  }

  /** The record passes its check exactly if its first word, low byte first, is the CRC of the rest. */
  lemma IntactIff(rec: seq<bv8>)
    requires |rec| == 32
    ensures Intact(rec) <==> StoredWord(rec) == Crc(rec[4..], 0)
  {
    hide Crc, Word;
    var c := Crc(rec[4..], 0);
    WordStored(c);
    FirstWord(rec);
    if StoredWord(rec) == c { StoredInjective(rec[..4], Word(c)); }
  }

  lemma FirstWord(e: seq<bv8>)
    requires |e| >= 4
    ensures StoredWord(e[..4]) == StoredWord(e)
  {
    hide Wide;
  }

  /** The factory record: region 1 at offset 12, the serial number from offset 15 on, zero elsewhere
      behind the CRC. */
  ghost predicate Factory(rec: seq<bv8>)
    requires |rec| == 32
  {
    && StoredWord(rec) == Crc(rec[4..], 0) && rec[12] == 1
    && (forall i | 0 <= i < 16 :: rec[15 + i] as int == "ABLN-00100000001"[i] as int)
    && (forall i | 4 <= i < 12 || 13 <= i < 15 || i == 31 :: rec[i] == 0)
  }

  lemma SeedIsFactory()
    ensures Factory(SeedRecord())
  {
    hide Crc, Word, StoredWord, SeedPayload, Intact;
    SeedIntact();
    IntactIff(SeedRecord());
    SeedLetters();
    var r, p := SeedRecord(), SeedPayload();
    assert r[4..] == p;
    forall i | 0 <= i < 16
      ensures r[15 + i] as int == "ABLN-00100000001"[i] as int
    {
      assert r[4..][11 + i] == p[11 + i];
    }
  }

  lemma SeedLetters()
    ensures var p := SeedPayload();
            && p[8] == 1 && (forall i | 0 <= i < 8 || 9 <= i < 11 || i == 27 :: p[i] == 0)
            && forall i | 0 <= i < 16 :: p[11 + i] as int == "ABLN-00100000001"[i] as int
  {
  }

  /** r is e seeded, byte by byte: the same while the first record passes its check; otherwise both
      records are the factory one, and all other bytes are as they were. */
  ghost predicate FactorySeeded(e: seq<bv8>, r: seq<bv8>)
    requires |e| == 8192 && |r| == 8192
  {
    && (StoredWord(e) == Crc(e[4..32], 0) ==> r == e)
    && (StoredWord(e) != Crc(e[4..32], 0) ==> Factory(r[..32]) && Factory(r[0x1000..0x1020]))
    && (forall i | 32 <= i < 0x1000 || 0x1020 <= i < 8192 :: r[i] == e[i])
  }

  lemma SeededLiterally(e: seq<bv8>)
    requires |e| == 8192
    ensures FactorySeeded(e, Seeded(e))
  {
    hide Crc, StoredWord, Intact, SeedRecord, Factory;
    SeedIsFactory();
    IntactIff(Primary(e));
    FirstWord(Primary(e));
    FirstWord(e);
    assert Primary(e)[..4] == e[..4] && Primary(e)[4..] == e[4..32];
    if !Intact(Primary(e)) {
      assert Seeded(e)[..32] == SeedRecord() && Seeded(e)[0x1000..0x1020] == SeedRecord();
    }
  }

  // ------------------------------------------------------------ SMBus window

  /** Command 8: bytes past the end of the EEPROM are dropped. */
  function Written(e: seq<bv8>, at: nat, data: seq<bv8>): (r: seq<bv8>)
    requires |e| == EEPROM_BYTES && at < EEPROM_BYTES
    ensures |r| == |e|
  {
    var n := if |data| <= |e| - at then |data| else |e| - at;
    e[..at] + data[..n] + e[at + n..]
  }

  /** Every byte of the memory after a write. */
  lemma WrittenAt(e: seq<bv8>, at: nat, data: seq<bv8>, i: nat)
    requires |e| == 8192 && at < 8192 && i < 8192
    ensures Written(e, at, data)[i] == if at <= i < at + |data| then data[i - at] else e[i]
  {
  }

  /** A record failing its check becomes the factory record at the next seeding. */
  lemma FailedReseeds(e: seq<bv8>)
    requires |e| == EEPROM_BYTES && !Intact(Primary(e))
    ensures Primary(Seeded(e)) == SeedRecord()
  {
    hide Intact, SeedRecord;
  }

  /** A small write over an intact record that changes it leaves it failing its check, so that the
      next seeding puts the factory record in its place. */
  lemma SmallWriteDetected(e: seq<bv8>, at: nat, data: seq<bv8>)
    requires |e| == EEPROM_BYTES && Intact(Primary(e))
    requires |data| <= 4 && at + |data| <= REC && (at + |data| <= 4 || 4 <= at)
    requires Written(e, at, data) != e
    ensures !Intact(Primary(Written(e, at, data)))
    ensures Primary(Seeded(Written(e, at, data))) == SeedRecord()
  {
    hide Intact, SeedRecord, Seeded;
    var w := Written(e, at, data);
    var j := at + |data|;
    assert w == e[..at] + data + e[j..];
    var r, s := Primary(e), Primary(w);
    assert s[..at] == r[..at] && s[j..] == r[j..];
    assert w[REC..] == e[REC..];
    SameParts(w, e, REC);
    DamageDetected(r, s, at, j);
    FailedReseeds(w);
  }

  /** Writing one copy of a record and then the other. */
  lemma Installed(e: seq<bv8>, st: seq<bv8>)
    requires |e| == EEPROM_BYTES && |st| == REC
    ensures [] + st + e[REC..] == st + e[REC..]
    ensures var m := st + e[REC..]; m[..DUP] + st + m[DUP + REC..] == Install(e, st)
  {
    var m := st + e[REC..];
    assert m[..DUP] == st + e[REC..DUP] && m[DUP + REC..] == e[DUP + REC..];
  }

  class EepromDevice {
    const mem: array<bv8>
    const crc: CrcTable

    constructor ()
      ensures Valid() && fresh(this) && fresh(mem) && fresh(crc) && fresh(crc.entry)
    {
      mem := new bv8[EEPROM_BYTES];
      crc := new CrcTable();
    }

    ghost predicate Valid()
      reads this, crc, crc.entry
    {
      mem.Length == EEPROM_BYTES && crc.Valid()
    }

    method PutRecord(at: nat, rec: seq<bv8>)
      requires mem.Length == EEPROM_BYTES && |rec| == REC && at + REC <= EEPROM_BYTES
      modifies mem
      ensures mem[..] == old(mem[..at]) + rec + old(mem[at + REC..])
    {
      Blit(mem, at, rec);
    }

    /** eeprom_seed_static. */
    method SeedStatic()
      requires Valid()
      modifies mem, crc, crc.entry
      ensures Valid() && mem[..] == Seeded(old(mem[..]))
    {
      hide Crc, Word, SeedPayload, CrcTable.Valid, Install;
      ghost var e := mem[..];
      var cur := crc.Calc(mem[4..REC], 0);
      assert Primary(e)[4..] == mem[4..REC];
      if Word(cur) == mem[..4] { return; }
      assert Primary(e)[..4] == mem[..4];
      var c := crc.Calc(SeedPayload(), 0);
      var st := Word(c) + SeedPayload();
      assert st == SeedRecord();
      Installed(e, st);
      PutRecord(0, st);
      assert mem[..] == st + e[REC..];
      PutRecord(DUP, st);
    }

    /** SMBus command 8 at address 0x57. */
    method SmbusWrite(at: nat, data: seq<bv8>)
      requires Valid() && at < EEPROM_BYTES
      modifies mem
      ensures mem[..] == Written(old(mem[..]), at, data)
    {
      var k := 0;
      while k < |data| && at + k < EEPROM_BYTES
        invariant k <= |data| && at + k <= EEPROM_BYTES
        invariant forall i | at <= i < at + k :: mem[i] == data[i - at]
        invariant forall i | 0 <= i < at || at + k <= i < mem.Length :: mem[i] == old(mem[i])
      {
        mem[at + k] := data[k];
        k := k + 1;
      }
    }

    /** SMBus command 9: n bytes, fewer at the end of the EEPROM or of the reply buffer. */
    method SmbusRead(at: nat, n: nat, room: nat) returns (data: seq<bv8>)
      requires Valid() && at < EEPROM_BYTES
      ensures var k := if n <= room then n else room;
              data == if at + k <= EEPROM_BYTES then mem[at..at + k] else mem[at..]
    {
      data := [];
      var k := 0;
      while k < n && at + k < EEPROM_BYTES && k < room
        invariant k <= n && k <= room && at + k <= EEPROM_BYTES
        invariant data == mem[at..at + k]
      {
        data := data + [mem[at + k]];
        k := k + 1;
      }
    }
  }

  // ------------------------------------------------------------ SRAM

  const SRAM_BYTES: nat := 0x200000

  datatype Origin = Begin | Current | End

  /** The battery-backed SRAM behind SetFilePointer, ReadFile and WriteFile. */
  class SramDevice {
    const mem: array<bv8>
    var ptr: nat

    constructor ()
      ensures Valid() && ptr == 0 && fresh(this) && fresh(mem)
    {
      mem := new bv8[SRAM_BYTES];
      ptr := 0;
    }

    ghost predicate Valid()
      reads this
    {
      mem.Length == SRAM_BYTES && ptr <= SRAM_BYTES
    }

    /** mxdev_seek: any target outside the memory is clamped to its nearer end. */
    method Seek(dist: int, origin: Origin) returns (r: nat)
      requires Valid()
      modifies `ptr
      ensures Valid() && r == ptr
      ensures var to := dist + match origin case Begin => 0 case Current => old(ptr) case End => 0x200000;
              (0 <= to <= 0x200000 ==> r == to) && (to < 0 ==> r == 0) && (to > 0x200000 ==> r == 0x200000)
    {
      var np := dist + match origin case Begin => 0 case Current => ptr case End => SRAM_BYTES;
      if np < 0 { np := 0; }
      if np > SRAM_BYTES { np := SRAM_BYTES; }
      ptr := np;
      r := ptr;
    }

    /** mxdev_read. */
    method Read(n: nat) returns (data: seq<bv8>)
      requires Valid()
      modifies `ptr
      ensures Valid() && ptr == old(ptr) + |data|
      ensures |data| == (if n < 0x200000 - old(ptr) then n else 0x200000 - old(ptr)) && data == mem[old(ptr)..ptr]
    {
      var k := if n < SRAM_BYTES - ptr then n else SRAM_BYTES - ptr;
      data := mem[ptr..ptr + k];
      ptr := ptr + k;
    }

    /** mxdev_write. */
    method Write(data: seq<bv8>) returns (k: nat)
      requires Valid()
      modifies `ptr, mem
      ensures Valid() && k == (if |data| < 0x200000 - old(ptr) then |data| else 0x200000 - old(ptr))
      ensures ptr == old(ptr) + k
      ensures mem[..] == old(mem[..ptr]) + data[..k] + old(mem[ptr + k..])
    {
      k := if |data| < SRAM_BYTES - ptr then |data| else SRAM_BYTES - ptr;
      Blit(mem, ptr, data[..k]);
      ptr := ptr + k;
    }

    /** A record written is the record read back from the same place, and only it has changed. */
    method WriteThenRead(at: nat, data: seq<bv8>) returns (back: seq<bv8>)
      requires Valid() && at + |data| <= SRAM_BYTES
      modifies `ptr, mem
      ensures Valid() && back == data
      ensures mem[..at] == old(mem[..at]) && mem[at + |data|..] == old(mem[at + |data|..])
    {
      var p := Seek(at, Begin);
      var k := Write(data);
      p := Seek(-|data|, Current);
      back := Read(|data|);
    }
  }
}
