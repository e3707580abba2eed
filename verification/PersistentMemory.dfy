/** The memory block that survives soft resets, guarded by its CRC. */
module PersistentMemory {
  import opened Crc32

  const PERSISTENT_MEMORY_ID: bv32 := 0x42c0ffee
  const BLOCK_SIZE: bv32 := 120       // sizeof; the crc32 field is the last, at offset 116
  const TIMEZONE_LEN: int := 64

  /** The fields of struct persistent_memory_block; saved_time is seconds, nanoseconds and padding. */
  datatype Block = Block(
    id: bv32, len: bv32, seconds: bv64, nanos: bv32, padding: bv32,
    uptime: bv64, prevUptime: bv64, totalUptime: bv64, warmstart: bv32,
    timezone: seq<bv8>, crc: bv32)

  // ---- The block as bytes, little endian ----

  function Bytes32(x: bv32): (r: seq<bv8>)
    ensures |r| == 4
  {
    [(x & 0xff) as bv8, ((x >> 8) & 0xff) as bv8, ((x >> 16) & 0xff) as bv8, ((x >> 24) & 0xff) as bv8]
  }

  function Bytes64(x: bv64): (r: seq<bv8>)
    ensures |r| == 8
  {
    Bytes32((x & 0xffffffff) as bv32) + Bytes32((x >> 32) as bv32)
  }

  /** The bytes before the crc32 field. */
  function Guarded(b: Block): seq<bv8> {
    Bytes32(b.id) + Bytes32(b.len) + Bytes64(b.seconds) + Bytes32(b.nanos) + Bytes32(b.padding)
    + Bytes64(b.uptime) + Bytes64(b.prevUptime) + Bytes64(b.totalUptime) + Bytes32(b.warmstart) + b.timezone
  }

  function Sealed(b: Block): Block { b.(crc := Crc(0, Guarded(b))) }

  predicate Accepted(b: Block) {
    b.id == PERSISTENT_MEMORY_ID && b.len == BLOCK_SIZE && b.crc == Crc(0, Guarded(b))
  }

  function NoZone(): (z: seq<bv8>)
    ensures |z| == TIMEZONE_LEN && forall i :: 0 <= i < TIMEZONE_LEN ==> z[i] == 0
  {
    seq(64, i => 0)
  }

  function Cold(): Block {
    Sealed(Block(PERSISTENT_MEMORY_ID, BLOCK_SIZE, 0, 0, 0, 0, 0, 0, 0, NoZone(), 0))
  }

  // 64-bit and 32-bit counters wrap.

  function Plus(a: bv64, b: bv64): bv64 { a + b }

  function Next(n: bv32): bv32 { n + 1 }

  function Warm(b: Block): Block {
    var c := if b.uptime != 0 then b.(prevUptime := b.uptime, totalUptime := Plus(b.totalUptime, b.uptime)) else b;
    Sealed(c.(warmstart := Next(c.warmstart)))
  }

  /** init_persistent_memory. */
  function Booted(b: Block): Block {
    if Accepted(b) then Warm(b) else Cold()
  }

  class Pmem {
    var id: bv32
    var len: bv32
    var seconds: bv64
    var nanos: bv32
    var padding: bv32
    var uptime: bv64
    var prevUptime: bv64
    var totalUptime: bv64
    var warmstart: bv32
    const timezone: array<bv8>
    var crc32: bv32

    ghost predicate Shape()
      reads this
    {
      timezone.Length == TIMEZONE_LEN
    }

    function Contents(): Block
      reads this, timezone
    {
      Block(id, len, seconds, nanos, padding, uptime, prevUptime, totalUptime, warmstart, timezone[..], crc32)
    }

    /** Power-on: the memory holds anything. */
    constructor (b: Block)
      requires |b.timezone| == TIMEZONE_LEN
      ensures Shape() && Contents() == b && fresh(timezone)
    {
      id, len, seconds, nanos, padding := b.id, b.len, b.seconds, b.nanos, b.padding;
      uptime, prevUptime, totalUptime, warmstart := b.uptime, b.prevUptime, b.totalUptime, b.warmstart;
      crc32 := b.crc;
      timezone := new bv8[TIMEZONE_LEN](i requires 0 <= i < |b.timezone| => b.timezone[i]);
      new;
      assert timezone[..] == b.timezone;
    }

    method GuardedCrc() returns (crc: bv32)
      requires Shape()
      ensures crc == Crc(0, Guarded(Contents()))
    {
      hide Guarded, BitSerial, Bits;
      var bytes := Guarded(Contents());
      var raw := new bv8[|bytes|](i requires 0 <= i < |bytes| => bytes[i]);
      assert raw[..] == bytes;
      crc := Xcrc32(raw, 0);
    }

    method UpdateCrc()
      requires Shape()
      modifies this`crc32
      ensures Contents() == Sealed(old(Contents()))
    {
      hide Crc;
      var crc := GuardedCrc();
      assert Guarded(Contents()) == Guarded(Contents().(crc := crc));
      crc32 := crc;
    }

    method WarmStart()
      requires Shape()
      modifies this
      ensures Contents() == Warm(old(Contents()))
    {
      hide Sealed, Plus, Next;
      if uptime != 0 {
        prevUptime := uptime;
        totalUptime := Plus(totalUptime, uptime);
      }
      warmstart := Next(warmstart);
      UpdateCrc();
    }

    method ColdStart()
      requires Shape()
      modifies this, timezone
      ensures Contents() == Cold()
    {
      hide Sealed;
      id, len, seconds, nanos, padding := PERSISTENT_MEMORY_ID, BLOCK_SIZE, 0, 0, 0;
      uptime, prevUptime, totalUptime, warmstart, crc32 := 0, 0, 0, 0, 0;
      forall i | 0 <= i < TIMEZONE_LEN {
        timezone[i] := 0;
      }
      assert timezone[..] == NoZone();
      UpdateCrc();
    }

    /** init_persistent_memory: a block that its id, length and CRC vouch for is carried over, any other
        memory is initialised. */
    method Init()
      requires Shape()
      modifies this, timezone
      ensures Contents() == Booted(old(Contents()))
    {
      hide Crc, Guarded, Warm, Cold;
      if id == PERSISTENT_MEMORY_ID && len == BLOCK_SIZE {
        var crc := GuardedCrc();
        if crc == crc32 {
          WarmStart();
          return;
        }
      }
      ColdStart();
    }

    /** update_persistent_memory, when its mutex was free; saved is the clock if it runs. */
    method Update(running: bool, saved: (bv64, bv32, bv32), now: bv64)
      requires Shape()
      modifies this
      ensures Contents() == Updated(old(Contents()), running, saved, now)
    {
      hide Sealed;
      if running {
        seconds, nanos, padding := saved.0, saved.1, saved.2;
      }
      uptime := now;
      UpdateCrc();
    }

    /** update_persistent_memory_tz, when its mutex was free: at most 63 characters and a NUL. */
    method UpdateTz(tz: seq<bv8>)
      requires Shape()
      modifies this, timezone
      ensures Contents() == Sealed(old(Contents()).(timezone := Zone(tz)))
    {
      hide Sealed;
      forall i | 0 <= i < TIMEZONE_LEN {
        timezone[i] := if i < |tz| && i < TIMEZONE_LEN - 1 then tz[i] else 0;
      }
      assert timezone[..] == Zone(tz);
      UpdateCrc();
    }
  }

  function Updated(b: Block, running: bool, saved: (bv64, bv32, bv32), now: bv64): Block {
    var c := if running then b.(seconds := saved.0, nanos := saved.1, padding := saved.2) else b;
    Sealed(c.(uptime := now))
  }

  /** A C string, given without its NUL, in the timezone field. */
  function Zone(tz: seq<bv8>): (z: seq<bv8>)
    ensures |z| == TIMEZONE_LEN
  {
    seq(64, i => if 0 <= i < |tz| && i < TIMEZONE_LEN - 1 then tz[i] else 0)
  }

  // ---- What the CRC is for ----

  lemma SealedIsAccepted(b: Block)
    requires b.id == PERSISTENT_MEMORY_ID && b.len == BLOCK_SIZE
    ensures Accepted(Sealed(b))
  {
    hide Crc;
    assert Guarded(Sealed(b)) == Guarded(b);
  }

  // ---- The bytes are those of the block ----

  function Join32(r: seq<bv8>): bv32
    requires |r| == 4
  {
    (r[0] as bv32) | ((r[1] as bv32) << 8) | ((r[2] as bv32) << 16) | ((r[3] as bv32) << 24)
  }

  /** The bytes of a word, least significant first, give the word back. */
  lemma LittleEndian32(x: bv32)
    ensures Join32(Bytes32(x)) == x
  {
    Parts(x);
  }

  lemma Parts(x: bv32)
    ensures (((x & 0xff) as bv8) as bv32) | ((((x >> 8) & 0xff) as bv8) as bv32 << 8)
            | ((((x >> 16) & 0xff) as bv8) as bv32 << 16) | ((((x >> 24) & 0xff) as bv8) as bv32 << 24) == x
  {
  }

  lemma Halves(x: bv64)
    ensures (((x >> 32) as bv32) as bv64 << 32) | ((x & 0xffffffff) as bv32) as bv64 == x
  {
  }

  lemma LittleEndian64(x: bv64)
    ensures var b := Bytes64(x); ((Join32(b[4..]) as bv64) << 32) | Join32(b[..4]) as bv64 == x
  {
    hide Bytes32, Join32;
    LittleEndian32((x & 0xffffffff) as bv32);
    LittleEndian32((x >> 32) as bv32);
    Halves(x);
    var b := Bytes64(x);
    assert b[..4] == Bytes32((x & 0xffffffff) as bv32) && b[4..] == Bytes32((x >> 32) as bv32);
  }

  /** Where each field lies. */
  lemma Layout(b: Block)
    requires |b.timezone| == 64
    ensures var g := Guarded(b);
            && |g| == 116
            && g[..4] == Bytes32(b.id) && g[4..8] == Bytes32(b.len)
            && g[8..16] == Bytes64(b.seconds) && g[16..20] == Bytes32(b.nanos) && g[20..24] == Bytes32(b.padding)
            && g[24..32] == Bytes64(b.uptime) && g[32..40] == Bytes64(b.prevUptime)
            && g[40..48] == Bytes64(b.totalUptime)
            && g[48..52] == Bytes32(b.warmstart) && g[52..] == b.timezone
  {
    hide Bytes32, Bytes64;
  }

  /** The guarded bytes determine every field but the CRC. */
  lemma GuardedDetermines(a: Block, b: Block)
    requires |a.timezone| == |b.timezone| == 64 && Guarded(a) == Guarded(b)
    ensures a == b.(crc := a.crc)
  {
    hide Guarded, Bytes32, Bytes64, Join32;
    Layout(a);
    Layout(b);
    LittleEndian32(a.id);
    LittleEndian32(b.id);
    LittleEndian32(a.len);
    LittleEndian32(b.len);
    LittleEndian32(a.nanos);
    LittleEndian32(b.nanos);
    LittleEndian32(a.padding);
    LittleEndian32(b.padding);
    LittleEndian32(a.warmstart);
    LittleEndian32(b.warmstart);
    SameWords(a.seconds, b.seconds);
    SameWords(a.uptime, b.uptime);
    SameWords(a.prevUptime, b.prevUptime);
    SameWords(a.totalUptime, b.totalUptime);
  }

  lemma SameWords(x: bv64, y: bv64)
    ensures Bytes64(x) == Bytes64(y) ==> x == y
  {
    hide Bytes64, Join32;
    LittleEndian64(x);
    LittleEndian64(y);
  }

  /** A block is accepted exactly if it carries the id and its own size and its CRC field is the remainder,
      from zero, of all the bytes before it. */
  lemma AcceptedMeans(b: Block)
    ensures Accepted(b) <==> b.id == 0x42c0ffee && b.len == 120 && b.crc == BitSerial(0, Bits(Guarded(b)))
  {
  }

  /** An accepted block of which any field but the CRC is altered, and with it no bytes but some within four
      consecutive ones, is always rejected, and the memory initialised. */
  lemma AlteredBlockIsRejected(b: Block, altered: Block, j: nat)
    requires Accepted(b) && altered.crc == b.crc && |b.timezone| == TIMEZONE_LEN == |altered.timezone|
    requires altered != b
    requires forall i :: 0 <= i < 116 && Guarded(altered)[i] != Guarded(b)[i] ==> j <= i < j + 4
    ensures !Accepted(altered) && Booted(altered) == Cold()
  {
    hide Crc, Guarded;
    GuardedLength(b);
    GuardedLength(altered);
    if Guarded(altered) == Guarded(b) {
      GuardedDetermines(altered, b);
    }
    FourBytesDetected(0, Guarded(b), Guarded(altered), j);
  }

  /** In particular, whatever the boot count is altered to. */
  lemma AlteredCountIsRejected(b: Block, x: bv32)
    requires Accepted(b) && |b.timezone| == TIMEZONE_LEN && x != b.warmstart
    ensures !Accepted(b.(warmstart := x))
  {
    hide Crc, Guarded, Accepted, Bytes32, Bytes64;
    var altered := b.(warmstart := x);
    Layout(b);
    Layout(altered);
    var g, h := Guarded(b), Guarded(altered);
    forall i | 0 <= i < 116 && h[i] != g[i] ensures 48 <= i < 52 {
      SameOutside(g, h, i);
    }
    AlteredBlockIsRejected(b, altered, 48);
  }

  lemma SameOutside(g: seq<bv8>, h: seq<bv8>, i: nat)
    requires |g| == |h| == 116 && i < 116
    requires g[..4] == h[..4] && g[4..8] == h[4..8] && g[8..16] == h[8..16] && g[16..20] == h[16..20]
    requires g[20..24] == h[20..24] && g[24..32] == h[24..32] && g[32..40] == h[32..40] && g[40..48] == h[40..48]
    requires g[52..] == h[52..]
    ensures g[i] != h[i] ==> 48 <= i < 52
  {
    if i < 48 {
      assert g[..48] == g[..4] + g[4..8] + g[8..16] + g[16..20] + g[20..24] + g[24..32] + g[32..40] + g[40..48];
      assert h[..48] == h[..4] + h[4..8] + h[8..16] + h[16..20] + h[20..24] + h[24..32] + h[32..40] + h[40..48];
      assert g[..48][i] == h[..48][i];
    } else if i >= 52 {
      assert g[52..][i - 52] == h[52..][i - 52];
    }
  }

  lemma GuardedLength(b: Block)
    ensures |Guarded(b)| == 52 + |b.timezone|
  {
    hide Bytes32, Bytes64;
  }

  // ---- What boots and writes do, field by field ----

  /** A boot counts itself, moves a recorded uptime into the previous and the total one, and leaves the rest
      of an accepted block; anything else becomes a block of zeros. Either way it is accepted. */
  lemma BootLaw(b: Block)
    ensures var r := Booted(b);
            && Accepted(r)
            && if Accepted(b)
               then r == b.(prevUptime := if b.uptime == 0 then b.prevUptime else b.uptime,
                            totalUptime := Plus(b.totalUptime, b.uptime), warmstart := Next(b.warmstart), crc := r.crc)
               else r == Block(0x42c0ffee, 120, 0, 0, 0, 0, 0, 0, 0, seq(64, i => 0), r.crc)
  {
    BootedIsAccepted(b);
    if Accepted(b) {
      WarmIs(b);
    } else {
      assert NoZone() == seq(64, i => 0 as bv8);
    }
    hide *;
  }

  lemma WarmIs(b: Block)
    ensures Warm(b) ==
            b.(prevUptime := if b.uptime == 0 then b.prevUptime else b.uptime,
               totalUptime := Plus(b.totalUptime, b.uptime), warmstart := Next(b.warmstart), crc := Warm(b).crc)
  {
    AddZero(b.totalUptime);
    hide Crc, Guarded, Plus, Next;
  }

  lemma CountersAdd(x: bv64, y: bv64, n: bv32)
    ensures Plus(x, y) == x + y && Next(n) == n + 1
  {
  }

  /** A write records the uptime and, if the clock runs, the time; or the zone, cut to 63 characters and filled
      up with zeros; and nothing else but the CRC. */
  lemma WriteLaw(b: Block, w: Write)
    requires Accepted(b)
    ensures var r := Written(b, w);
            && Accepted(r)
            && (w.Uptime? && w.running ==>
                  r == b.(seconds := w.saved.0, nanos := w.saved.1, padding := w.saved.2, uptime := w.now,
                          crc := r.crc))
            && (w.Uptime? && !w.running ==> r == b.(uptime := w.now, crc := r.crc))
            && (w.Timezone? ==>
                  var n := if |w.tz| < 63 then |w.tz| else 63;
                  && r == b.(timezone := r.timezone, crc := r.crc) && |r.timezone| == 64
                  && r.timezone[..n] == w.tz[..n] && forall i :: n <= i < 64 ==> r.timezone[i] == 0)
  {
    WriteKeepsAccepted(b, w);
    hide Crc, Guarded, Accepted;
  }

  // ---- Runs ----

  /** One period between two boots: the uptimes recorded in it, in order, and its last timezone. */
  datatype Write = Uptime(running: bool, saved: (bv64, bv32, bv32), now: bv64) | Timezone(tz: seq<bv8>)

  function Written(b: Block, w: Write): Block {
    match w
    case Uptime(running, saved, now) => Updated(b, running, saved, now)
    case Timezone(tz) => Sealed(b.(timezone := Zone(tz)))
  }

  function WrittenAll(b: Block, ws: seq<Write>): Block {
    if ws == [] then b else Written(WrittenAll(b, ws[..|ws| - 1]), ws[|ws| - 1])
  }

  /** The memory after a boot from anything at all and then any number of sessions, each ended by a
      boot. */
  function Sessions(garbage: Block, sessions: seq<seq<Write>>): Block {
    if sessions == [] then Booted(garbage)
    else Booted(WrittenAll(Sessions(garbage, sessions[..|sessions| - 1]), sessions[|sessions| - 1]))
  }

  /** The uptime field after the writes of a session. */
  function LastUptime(before: bv64, ws: seq<Write>): bv64 {
    if ws == [] then before
    else if ws[|ws| - 1].Uptime? then ws[|ws| - 1].now
    else LastUptime(before, ws[..|ws| - 1])
  }

  lemma WriteKeepsAccepted(b: Block, w: Write)
    requires Accepted(b)
    ensures var r := Written(b, w);
            Accepted(r) && r.uptime == (if w.Uptime? then w.now else b.uptime) && r.totalUptime == b.totalUptime
  {
    hide Crc, Guarded;
    match w
    case Uptime(running, saved, now) =>
      var c := if running then b.(seconds := saved.0, nanos := saved.1, padding := saved.2) else b;
      SealedIsAccepted(c.(uptime := now));
    case Timezone(tz) => SealedIsAccepted(b.(timezone := Zone(tz)));
  }

  lemma {:induction false} WritesKeepAccepted(b: Block, ws: seq<Write>)
    requires Accepted(b)
    ensures var r := WrittenAll(b, ws);
            Accepted(r) && r.uptime == LastUptime(b.uptime, ws) && r.totalUptime == b.totalUptime
  {
    hide Accepted, Written;
    if ws != [] {
      WritesKeepAccepted(b, ws[..|ws| - 1]);
      WriteKeepsAccepted(WrittenAll(b, ws[..|ws| - 1]), ws[|ws| - 1]);
    }
  }

  /** What each boot adds to the total: the uptime field it finds. */
  function Carried(u0: bv64, sessions: seq<seq<Write>>): bv64 {
    if sessions == [] then u0 else LastUptime(Carried(u0, sessions[..|sessions| - 1]), sessions[|sessions| - 1])
  }

  function Sum(u0: bv64, sessions: seq<seq<Write>>): bv64 {
    if sessions == [] then 0 else Plus(Sum(u0, sessions[..|sessions| - 1]), Carried(u0, sessions))
  }

  lemma BootedIsAccepted(b: Block)
    ensures var r := Booted(b);
            Accepted(r) && if Accepted(b)
            then r.uptime == b.uptime && r.totalUptime == Plus(b.totalUptime, b.uptime)
                 && r.warmstart == Next(b.warmstart)
            else r.uptime == 0 && r.totalUptime == 0
  {
    AddZero(b.totalUptime);
    hide Crc, Guarded, Plus, Next;
    SealedIsAccepted(Block(PERSISTENT_MEMORY_ID, BLOCK_SIZE, 0, 0, 0, 0, 0, 0, 0, NoZone(), 0));
    if Accepted(b) {
      var c := if b.uptime != 0 then b.(prevUptime := b.uptime, totalUptime := Plus(b.totalUptime, b.uptime)) else b;
      SealedIsAccepted(c.(warmstart := Next(c.warmstart)));
    }
  }

  lemma AddZero(x: bv64)
    ensures Plus(x, 0) == x
  {
  }

  /** From a first boot that found nothing, through any number of soft resets: the block is accepted at
      every boot, and the total uptime is the sum, modulo 2^64, of what the boots found recorded. */
  lemma {:induction false} TotalUptime(garbage: Block, sessions: seq<seq<Write>>)
    requires !Accepted(garbage)
    ensures var b := Sessions(garbage, sessions);
            Accepted(b) && b.totalUptime == Sum(0, sessions) && b.uptime == Carried(0, sessions)
  {
    hide Crc, Guarded, Plus, Next, Booted, Accepted;
    if sessions == [] {
      BootedIsAccepted(garbage);
    } else {
      var front, ws := sessions[..|sessions| - 1], sessions[|sessions| - 1];
      TotalUptime(garbage, front);
      WritesKeepAccepted(Sessions(garbage, front), ws);
      BootedIsAccepted(WrittenAll(Sessions(garbage, front), ws));
    }
  }

  /** A session in which no uptime was recorded is credited with the uptime of the session before it:
      the uptime field is not cleared at boot. The credit is right if and only if some uptime was
      recorded, or the field was zero already. */
  lemma {:induction false} StaleUptimeIsCreditedAgain(u0: bv64, sessions: seq<seq<Write>>)
    requires sessions != []
    ensures var (front, ws) := (sessions[..|sessions| - 1], sessions[|sessions| - 1]);
            Carried(u0, sessions) == LastUptime(0, ws) <==>
            (exists i :: 0 <= i < |ws| && ws[i].Uptime?) || Carried(u0, front) == 0
  {
    NothingRecorded(Carried(u0, sessions[..|sessions| - 1]), sessions[|sessions| - 1]);
  }

  /** It does happen: a session records an uptime, the next one none, and the total counts it twice. */
  lemma {:induction false} CreditedTwice(garbage: Block, u: bv64)
    requires !Accepted(garbage)
    ensures Sessions(garbage, [[Uptime(false, (0, 0, 0), u)], []]).totalUptime == Plus(u, u)
  {
    hide Accepted, Booted, Plus;
    var first, second: seq<Write> := [Uptime(false, (0, 0, 0), u)], [];
    TotalUptime(garbage, [first, second]);
    assert [first, second][..1] == [first] && [first][..0] == [];
    assert Carried(0, [first]) == u && Carried(0, [first, second]) == u;
    assert Sum(0, [first]) == Plus(0, u);
    AddZero(u);
    PlusZero(u);
  }

  lemma PlusZero(x: bv64)
    ensures Plus(0, x) == x
  {
  }

  lemma {:induction false} NothingRecorded(u: bv64, ws: seq<Write>)
    ensures if exists i :: 0 <= i < |ws| && ws[i].Uptime? then LastUptime(u, ws) == LastUptime(0, ws)
            else LastUptime(u, ws) == u && LastUptime(0, ws) == 0
  {
    if ws != [] {
      NothingRecorded(u, ws[..|ws| - 1]);
      if i :| 0 <= i < |ws| && ws[i].Uptime? && i < |ws| - 1 {
        assert ws[..|ws| - 1][i] == ws[i];
      }
    }
  }
}
