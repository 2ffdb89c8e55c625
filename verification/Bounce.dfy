/**
 The block-device binding of src/croi/carafs_bind.c: transfers of any length through an 8 KiB
 bounce buffer to an NVMe namespace, and the file-system block view on top.
 */
module Bounce {
  import opened Arithmetic

  const PAGE: nat := 4096
  const BOUNCE: nat := 2 * PAGE
  const FS_BLOCK: nat := 4096

  datatype Rc = Ok | Inval | OutOfRange | Device(code: int)

  /** What became of a command the drive accepted: done, or failed leaving arbitrary bytes. */
  datatype Outcome = Done | Failed(code: int, torn: nat -> u8)

  /** What a failed write left behind. */
  function Left(torn: nat -> u8, n: nat): (r: seq<u8>)
    ensures |r| == n
  {
    seq<u8>(n, i requires 0 <= i => torn(i))
  }

  /** What a write of these bytes puts on the media. */
  ghost function Landed(outcome: Outcome, bytes: seq<u8>): (r: seq<u8>)
    ensures |r| == |bytes|
  {
    if outcome.Done? then bytes else Left(outcome.torn, |bytes|)
  }

  /** A multiple of a block, in whichever order the factors come. */
  function Bytes(n: nat, bb: nat): nat { n * bb }

  lemma BytesAdd(a: nat, b: nat, bb: nat)
    ensures Bytes(a + b, bb) == Bytes(a, bb) + Bytes(b, bb)
  {}

  lemma BytesMono(a: nat, b: nat, bb: nat)
    requires a <= b
    ensures Bytes(a, bb) <= Bytes(b, bb)
  {
    MulMono(a, b, bb);
  }

  lemma BytesDivide(n: nat, bb: nat)
    requires 0 < bb
    ensures Bytes(n, bb) / bb == n && Bytes(n, bb) % bb == 0
  {
    DivModUnique(Bytes(n, bb), bb, n, 0);
  }

  /** s with t written over it at position p. */
  function Splice(s: seq<u8>, p: nat, t: seq<u8>): (r: seq<u8>)
    requires p + |t| <= |s|
    ensures |r| == |s|
    ensures forall i | 0 <= i < |s| :: r[i] == if p <= i < p + |t| then t[i - p] else s[i]
  {
    s[..p] + t + s[p + |t|..]
  }

  /** memcpy between two byte arrays. */
  method Copy(dst: array<u8>, d: nat, src: array<u8>, s: nat, n: nat)
    requires d + n <= dst.Length && s + n <= src.Length && dst != src
    modifies dst
    ensures dst[..] == Splice(old(dst[..]), d, src[s..s + n])
  {
    for i := 0 to n
      invariant forall k | 0 <= k < dst.Length :: dst[k] == if d <= k < d + i then src[s + k - d] else old(dst[k])
    {
      dst[d + i] := src[s + i];
    }
  }

  /** Bytes arriving in an array from outside. */
  method Arrive(dst: array<u8>, d: nat, t: seq<u8>)
    requires d + |t| <= dst.Length
    modifies dst
    ensures dst[..] == Splice(old(dst[..]), d, t)
  {
    for i := 0 to |t|
      invariant forall k | 0 <= k < dst.Length :: dst[k] == if d <= k < d + i then t[k - d] else old(dst[k])
    {
      dst[d + i] := t[i];
    }
  }

  /** A namespace of n_blocks LBAs of bb bytes, and the commands it has accepted. */
  class Nvme {
    const bb: nat
    const nBlocks: nat
    const media: array<u8>
    var log: seq<(nat, nat)>

    ghost predicate Valid() { 0 < bb && media.Length == Bytes(nBlocks, bb) && nBlocks < TWO64 }

    /** The argument checks of Croi_Nvme_Read and Croi_Nvme_Write. */
    function Check(lba: nat, n: nat): (rc: Rc)
      ensures rc.Ok? ==> 0 < n && Bytes(n, bb) <= BOUNCE && lba + n <= nBlocks
    {
      if n == 0 then Inval else if Bytes(n, bb) > BOUNCE then Inval
      else if lba + n > nBlocks then OutOfRange else Ok
    }

    lemma InMedia(lba: nat, n: nat)
      requires Valid() && lba + n <= nBlocks
      ensures Bytes(lba, bb) + Bytes(n, bb) <= media.Length
    {
      BytesAdd(lba, n, bb);
      BytesMono(lba + n, nBlocks, bb);
    }

    constructor (bb: nat, nBlocks: nat, media: array<u8>)
      requires 0 < bb && media.Length == Bytes(nBlocks, bb) && nBlocks < TWO64
      ensures Valid() && this.media == media && this.bb == bb && this.nBlocks == nBlocks && log == []
    {
      this.bb, this.nBlocks, this.media, log := bb, nBlocks, media, [];
    }

    /** Croi_Nvme_Write. */
    method Write(lba: nat, n: nat, buf: array<u8>, outcome: Outcome) returns (rc: Rc)
      requires Valid() && buf.Length == BOUNCE && buf != media
      modifies this`log, media
      ensures !Check(lba, n).Ok? ==> rc == Check(lba, n) && media[..] == old(media[..]) && log == old(log)
      ensures Check(lba, n).Ok? ==> log == old(log) + [(lba, n)] && (rc.Ok? <==> outcome.Done?)
      ensures Check(lba, n).Ok? ==> Bytes(lba, bb) + Bytes(n, bb) <= media.Length
      ensures Check(lba, n).Ok? ==>
                media[..] == Splice(old(media[..]), Bytes(lba, bb), Landed(outcome, buf[..Bytes(n, bb)]))
    {
      rc := Check(lba, n);
      if !rc.Ok? {
        return;
      }
      InMedia(lba, n);
      log := log + [(lba, n)];
      if outcome.Done? {
        Copy(media, Bytes(lba, bb), buf, 0, Bytes(n, bb));
      } else {
        Arrive(media, Bytes(lba, bb), Left(outcome.torn, Bytes(n, bb)));
        rc := Device(outcome.code);
      }
    }

    /** Croi_Nvme_Read; on failure the buffer holds whatever the drive left there. */
    method Read(lba: nat, n: nat, buf: array<u8>, outcome: Outcome) returns (rc: Rc)
      requires Valid() && buf.Length == BOUNCE && buf != media
      modifies this`log, buf
      ensures !Check(lba, n).Ok? ==> rc == Check(lba, n) && log == old(log)
      ensures Check(lba, n).Ok? ==> log == old(log) + [(lba, n)] && (rc.Ok? <==> outcome.Done?)
      ensures Check(lba, n).Ok? ==> Bytes(lba, bb) + Bytes(n, bb) <= media.Length
      ensures rc.Ok? ==> buf[..Bytes(n, bb)] == media[Bytes(lba, bb)..Bytes(lba, bb) + Bytes(n, bb)]
    {
      rc := Check(lba, n);
      if !rc.Ok? {
        return;
      }
      InMedia(lba, n);
      log := log + [(lba, n)];
      if outcome.Done? {
        Copy(buf, 0, media, Bytes(lba, bb), Bytes(n, bb));
      } else {
        rc := Device(outcome.code);
      }
    }
  }

  // ---- nvme_chunked --------------------------------------------------------------

  /** The size of the next chunk, in bytes: the remaining count is cut to 32 bits first. */
  function ChunkSize(total: nat, off: nat): nat
    requires off <= total
  {
    Min((total - off) % TWO32, BOUNCE)
  }

  /** The LBA size divides the file-system block. */
  predicate Geometry(bb: nat) { 0 < bb && FS_BLOCK % bb == 0 }

  lemma BounceIsWhole(bb: nat)
    requires Geometry(bb)
    ensures BOUNCE == Bytes(BOUNCE / bb, bb) && 0 < BOUNCE / bb
  {
    var q := FS_BLOCK / bb;
    assert FS_BLOCK == bb * q;
    assert BOUNCE == bb * (2 * q);
    DivModUnique(BOUNCE, bb, 2 * q, 0);
  }

  /** The commands a transfer of n LBAs issues, as (first LBA, count). */
  function Plan(lba: nat, n: nat, bb: nat): seq<(nat, nat)>
    requires Geometry(bb)
    decreases n
  {
    BounceIsWhole(bb);
    if n == 0 then []
    else var k := Min(n, BOUNCE / bb); [(lba, k)] + Plan(lba + k, n - k, bb)
  }

  /** The commands cover the LBAs in order, each exactly once, at most 8 KiB at a time. */
  ghost predicate Covers(cmds: seq<(nat, nat)>, lba: nat, n: nat, bb: nat)
    decreases |cmds|
  {
    if cmds == [] then n == 0
    else
      && cmds[0].0 == lba && 0 < cmds[0].1 <= n && Bytes(cmds[0].1, bb) <= BOUNCE
      && Covers(cmds[1..], lba + cmds[0].1, n - cmds[0].1, bb)
  }

  lemma {:induction false} PlanCovers(lba: nat, n: nat, bb: nat)
    requires Geometry(bb)
    ensures Covers(Plan(lba, n, bb), lba, n, bb)
    decreases n
  {
    BounceIsWhole(bb);
    if n > 0 {
      var k := Min(n, BOUNCE / bb);
      PlanCovers(lba + k, n - k, bb);
      BytesMono(k, BOUNCE / bb, bb);
    }
  }

  /** How many LBAs make 2^32 bytes. */
  function Lap(bb: nat): nat
    requires 0 < bb
  {
    TWO32 / bb
  }

  lemma LapIsWhole(bb: nat)
    requires Geometry(bb)
    ensures TWO32 == Bytes(Lap(bb), bb) && 0 < Lap(bb)
  {
    var q := FS_BLOCK / bb;
    assert FS_BLOCK == bb * q;
    assert TWO32 == bb * (0x10_0000 * q);
    DivModUnique(TWO32, bb, 0x10_0000 * q, 0);
  }

  lemma BytesModulo(n: nat, bb: nat)
    requires Geometry(bb)
    ensures 0 < Lap(bb) && Bytes(n, bb) % TWO32 == Bytes(n % Lap(bb), bb)
    ensures Bytes(n, bb) < TWO32 <==> n < Lap(bb)
  {
    LapIsWhole(bb);
    var q, r := Divide(n, Lap(bb));
    BytesAdd(q * Lap(bb), r, bb);
    assert Bytes(q * Lap(bb), bb) == TWO32 * q;
    BytesMono(r + 1, Lap(bb), bb);
    BytesAdd(r, 1, bb);
    DivModUnique(Bytes(n, bb), TWO32, q, Bytes(r, bb));
    if n < Lap(bb) {
      BytesMono(n + 1, Lap(bb), bb);
      BytesAdd(n, 1, bb);
    } else {
      BytesMono(Lap(bb), n, bb);
    }
  }

  /** The LBAs of the next chunk. */
  function ChunkLbas(rest: nat, bb: nat): (k: nat)
    requires Geometry(bb)
    ensures k <= rest
  {
    LapIsWhole(bb);
    Min(rest % Lap(bb), BOUNCE / bb)
  }

  lemma MinBytes(a: nat, b: nat, bb: nat)
    ensures Min(Bytes(a, bb), Bytes(b, bb)) == Bytes(Min(a, b), bb)
  {
    if a <= b { BytesMono(a, b, bb); } else { BytesMono(b, a, bb); }
  }

  lemma ChunkIsWhole(n: nat, done: nat, bb: nat)
    requires Geometry(bb) && done <= n
    ensures Bytes(done, bb) <= Bytes(n, bb)
    ensures ChunkSize(Bytes(n, bb), Bytes(done, bb)) == Bytes(ChunkLbas(n - done, bb), bb)
  {
    BytesAdd(done, n - done, bb);
    BytesModulo(n - done, bb);
    BounceIsWhole(bb);
    MinBytes((n - done) % Lap(bb), BOUNCE / bb, bb);
  }

  /** The loop's byte arithmetic in LBAs. */
  lemma ChunkInLbas(n: nat, done: nat, bb: nat)
    requires Geometry(bb) && done <= n
    ensures Bytes(done, bb) <= Bytes(n, bb) && (Bytes(done, bb) < Bytes(n, bb) <==> done < n)
    ensures var k := ChunkLbas(n - done, bb);
      && ChunkSize(Bytes(n, bb), Bytes(done, bb)) == Bytes(k, bb) <= BOUNCE
      && Bytes(done, bb) / bb == done && Bytes(k, bb) / bb == k
      && Bytes(done, bb) + Bytes(k, bb) == Bytes(done + k, bb) <= Bytes(n, bb)
  {
    var k := ChunkLbas(n - done, bb);
    ChunkIsWhole(n, done, bb);
    BytesDivide(done, bb);
    BytesDivide(k, bb);
    BytesAdd(done, k, bb);
    BytesMono(done + k, n, bb);
    if done < n {
      BytesAdd(done, 1, bb);
      BytesMono(done + 1, n, bb);
    }
  }

  /** The loop can finish only a transfer under 2^32 bytes: what it moves never takes a lap off. */
  lemma LapsKept(n: nat, done: nat, bb: nat)
    requires Geometry(bb) && done <= n
    ensures 0 < Lap(bb) && (n - done - ChunkLbas(n - done, bb)) / Lap(bb) == (n - done) / Lap(bb)
  {
    LapIsWhole(bb);
    var k := ChunkLbas(n - done, bb);
    var q, r := Divide(n - done, Lap(bb));
    DivModUnique(n - done - k, Lap(bb), q, r - k);
  }

  /** Under 2^32 bytes the chunks are those of the plan. */
  lemma PlanStep(lba: nat, n: nat, bb: nat)
    requires Geometry(bb) && 0 < n < Lap(bb)
    ensures 0 < ChunkLbas(n, bb) <= n
    ensures Plan(lba, n, bb) == [(lba, ChunkLbas(n, bb))] + Plan(lba + ChunkLbas(n, bb), n - ChunkLbas(n, bb), bb)
  {
    BounceIsWhole(bb);
    DivModUnique(n, Lap(bb), 0, n);
  }

  /** now is was with the first len bytes of buf written at p. */
  ghost predicate Written(was: seq<u8>, now: seq<u8>, p: nat, buf: seq<u8>, len: nat) {
    |now| == |was| && len <= |buf| &&
    forall i | 0 <= i < |was| :: now[i] == if p <= i < p + len then buf[i - p] else was[i]
  }

  /** now differs from was at most within len bytes from p. */
  ghost predicate OnlyWithin(was: seq<u8>, now: seq<u8>, p: nat, len: nat) {
    |now| == |was| && forall i | 0 <= i < |was| && !(p <= i < p + len) :: now[i] == was[i]
  }

  lemma WriteChunk(was: seq<u8>, now: seq<u8>, p: nat, buf: seq<u8>, off: nat, t: seq<u8>)
    requires Written(was, now, p, buf, off) && p + off + |t| <= |was|
    ensures OnlyWithin(was, Splice(now, p + off, t), p, off + |t|)
    ensures off + |t| <= |buf| && t == buf[off..off + |t|] ==> Written(was, Splice(now, p + off, t), p, buf, off + |t|)
  {}

  method LoadBounce(bounce: array<u8>, buf: array<u8>, off: nat, chunk: nat)
    requires chunk <= bounce.Length && off + chunk <= buf.Length && buf != bounce
    modifies bounce
    ensures bounce[..chunk] == buf[..][off..off + chunk]
  {
    Copy(bounce, 0, buf, off, chunk);
  }

  /** One chunk out: through the bounce buffer to the drive. */
  method WriteOne(dev: Nvme, bounce: array<u8>, clba: nat, cn: nat, buf: array<u8>, off: nat, outcome: Outcome,
                  ghost was: seq<u8>, ghost p: nat) returns (rc: Rc)
    requires dev.Valid() && bounce.Length == BOUNCE && bounce != dev.media && buf != dev.media && buf != bounce
    requires Bytes(cn, dev.bb) <= BOUNCE && off + Bytes(cn, dev.bb) <= buf.Length
    requires p + off == Bytes(clba, dev.bb) && Written(was, dev.media[..], p, buf[..], off)
    modifies dev`log, dev.media, bounce
    ensures rc.Ok? ==> 0 < cn && clba + cn <= dev.nBlocks && dev.log == old(dev.log) + [(clba, cn)]
    ensures rc.Ok? ==> Written(was, dev.media[..], p, buf[..], off + Bytes(cn, dev.bb))
    ensures OnlyWithin(was, dev.media[..], p, off + Bytes(cn, dev.bb))
    ensures 0 < cn && clba + cn <= dev.nBlocks && outcome.Done? ==> rc.Ok?
  {
    var chunk := Bytes(cn, dev.bb);
    LoadBounce(bounce, buf, off, chunk);
    ghost var now := dev.media[..];
    rc := dev.Write(clba, cn, bounce, outcome);
    if dev.Check(clba, cn).Ok? {
      WriteChunk(was, now, p, buf[..], off, Landed(outcome, bounce[..chunk]));
    } else {
      WrittenWithin(was, now, p, buf[..], off);
      OnlyWithinMore(was, now, p, off, off + chunk);
    }
  }

  lemma OnlyWithinMore(was: seq<u8>, now: seq<u8>, p: nat, len: nat, more: nat)
    requires OnlyWithin(was, now, p, len) && len <= more
    ensures OnlyWithin(was, now, p, more)
  {}

  lemma WrittenWithin(was: seq<u8>, now: seq<u8>, p: nat, buf: seq<u8>, len: nat)
    requires Written(was, now, p, buf, len)
    ensures OnlyWithin(was, now, p, len)
  {}

  /** Where the loop stands after `done` LBAs: a lap of 2^32 bytes is never taken off the rest. */
  ghost predicate Underway(n: nat, done: nat, bb: nat, off: nat)
    requires Geometry(bb)
  {
    LapIsWhole(bb);
    done <= n && off == Bytes(done, bb) && (n - done) / Lap(bb) == n / Lap(bb)
  }

  lemma UnderwayStart(n: nat, bb: nat)
    requires Geometry(bb)
    ensures Underway(n, 0, bb, 0)
  {}

  lemma UnderwayNext(n: nat, done: nat, bb: nat, off: nat)
    requires Geometry(bb) && Underway(n, done, bb, off) && off < Bytes(n, bb)
    ensures var k := ChunkLbas(n - done, bb);
      && done < n && ChunkSize(Bytes(n, bb), off) == Bytes(k, bb) <= BOUNCE
      && off / bb == done && Bytes(k, bb) / bb == k && off + Bytes(k, bb) <= Bytes(n, bb)
      && Underway(n, done + k, bb, off + Bytes(k, bb))
      && (n < Lap(bb) ==> 0 < k)
  {
    ChunkInLbas(n, done, bb);
    LapsKept(n, done, bb);
    if n < Lap(bb) { PlanStep(0, n - done, bb); }
  }

  lemma UnderwayEnd(n: nat, done: nat, bb: nat, off: nat)
    requires Geometry(bb) && Underway(n, done, bb, off) && off >= Bytes(n, bb)
    ensures done == n && n < Lap(bb) && off == Bytes(n, bb)
  {
    ChunkInLbas(n, done, bb);
    var q, r := Divide(n, Lap(bb));
    DivModUnique(0, Lap(bb), 0, 0);
  }

  /** The commands issued so far and those still to come are the plan. */
  ghost predicate OnPlan(log0: seq<(nat, nat)>, log: seq<(nat, nat)>, lba: nat, n: nat, done: nat, bb: nat)
    requires Geometry(bb) && done <= n
  {
    n < Lap(bb) ==> log0 + Plan(lba, n, bb) == log + Plan(lba + done, n - done, bb)
  }

  lemma OnPlanNext(log0: seq<(nat, nat)>, log: seq<(nat, nat)>, lba: nat, n: nat, done: nat, bb: nat)
    requires Geometry(bb) && done < n && OnPlan(log0, log, lba, n, done, bb)
    ensures var k := ChunkLbas(n - done, bb);
      OnPlan(log0, log + [(lba + done, k)], lba, n, done + k, bb)
  {
    if n < Lap(bb) { PlanStep(lba + done, n - done, bb); }
  }

  /** nvme_chunked with write set: success is one contiguous transfer, whatever happens stays within
      the addressed LBAs, and a transfer of 2^32 bytes or more never succeeds. */
  method ChunkedWrite(dev: Nvme, bounce: array<u8>, lba: nat, n: nat, buf: array<u8>, outcomes: nat -> Outcome)
    returns (rc: Rc)
    requires dev.Valid() && Geometry(dev.bb) && bounce.Length == BOUNCE && Bytes(n, dev.bb) <= buf.Length
    requires bounce != dev.media && buf != dev.media && buf != bounce
    modifies dev`log, dev.media, bounce
    ensures rc.Ok? ==> n < Lap(dev.bb) && (n == 0 || lba + n <= dev.nBlocks)
    ensures rc.Ok? ==> dev.log == old(dev.log) + Plan(lba, n, dev.bb)
    ensures rc.Ok? ==> Written(old(dev.media[..]), dev.media[..], Bytes(lba, dev.bb), buf[..], Bytes(n, dev.bb))
    ensures OnlyWithin(old(dev.media[..]), dev.media[..], Bytes(lba, dev.bb), Bytes(n, dev.bb))
    ensures n == 0 ==> rc.Ok? && dev.media[..] == old(dev.media[..])
    ensures n < Lap(dev.bb) && lba + n <= dev.nBlocks && (forall k: nat :: outcomes(k).Done?) ==> rc.Ok?
  {
    var bb := dev.bb;
    var total, off, cmd := Bytes(n, bb), 0, 0;
    ghost var done, was, p := 0, dev.media[..], Bytes(lba, bb);
    UnderwayStart(n, bb);
    while off < total
      invariant Underway(n, done, bb, off) && (done == 0 || lba + done <= dev.nBlocks)
      invariant Written(was, dev.media[..], p, buf[..], off)
      invariant OnPlan(old(dev.log), dev.log, lba, n, done, bb)
      decreases n - done
    {
      UnderwayNext(n, done, bb, off);
      BytesAdd(lba, done, bb);
      var chunk := ChunkSize(total, off);
      OnPlanNext(old(dev.log), dev.log, lba, n, done, bb);
      var rc' := WriteOne(dev, bounce, lba + off / bb, chunk / bb, buf, off, outcomes(cmd), was, p);
      if !rc'.Ok? {
        OnlyWithinMore(was, dev.media[..], p, off + chunk, total);
        return rc';
      }
      done := done + chunk / bb;
      off := off + chunk;
      cmd := cmd + 1;
    }
    UnderwayEnd(n, done, bb, off);
    WrittenWithin(was, dev.media[..], p, buf[..], off);
    return Ok;
  }

  /** now is was with its first len bytes replaced by those of the media at p. */
  ghost predicate Filled(was: seq<u8>, now: seq<u8>, media: seq<u8>, p: nat, len: nat) {
    |now| == |was| && len <= |was| && (len == 0 || p + len <= |media|) &&
    forall i | 0 <= i < |was| :: now[i] == if i < len then media[p + i] else was[i]
  }

  lemma FillChunk(was: seq<u8>, now: seq<u8>, media: seq<u8>, p: nat, off: nat, chunk: nat)
    requires Filled(was, now, media, p, off) && p + off + chunk <= |media| && off + chunk <= |was|
    ensures Filled(was, Splice(now, off, media[p + off..p + off + chunk]), media, p, off + chunk)
  {}

  /** One chunk in: from the drive through the bounce buffer. */
  method ReadOne(dev: Nvme, bounce: array<u8>, clba: nat, cn: nat, buf: array<u8>, off: nat, outcome: Outcome,
                 ghost was: seq<u8>, ghost p: nat) returns (rc: Rc)
    requires dev.Valid() && bounce.Length == BOUNCE && bounce != dev.media && buf != dev.media && buf != bounce
    requires Bytes(cn, dev.bb) <= BOUNCE && off + Bytes(cn, dev.bb) <= buf.Length
    requires p + off == Bytes(clba, dev.bb) && Filled(was, buf[..], dev.media[..], p, off)
    modifies dev`log, buf, bounce
    ensures rc.Ok? ==> 0 < cn && clba + cn <= dev.nBlocks && dev.log == old(dev.log) + [(clba, cn)]
    ensures Filled(was, buf[..], dev.media[..], p, if rc.Ok? then off + Bytes(cn, dev.bb) else off)
    ensures 0 < cn && clba + cn <= dev.nBlocks && outcome.Done? ==> rc.Ok?
  {
    var chunk := Bytes(cn, dev.bb);
    rc := dev.Read(clba, cn, bounce, outcome);
    if rc.Ok? {
      ghost var now := buf[..];
      assert bounce[..chunk] == dev.media[..][p + off..p + off + chunk];
      Copy(buf, off, bounce, 0, chunk);
      assert bounce[0..0 + chunk] == bounce[..chunk];
      FillChunk(was, now, dev.media[..], p, off, chunk);
    }
  }

  /** nvme_chunked with write clear: the buffer holds what was read so far, all of it on success. */
  method ChunkedRead(dev: Nvme, bounce: array<u8>, lba: nat, n: nat, buf: array<u8>, outcomes: nat -> Outcome)
    returns (rc: Rc)
    requires dev.Valid() && Geometry(dev.bb) && bounce.Length == BOUNCE && Bytes(n, dev.bb) <= buf.Length
    requires bounce != dev.media && buf != dev.media && buf != bounce
    modifies dev`log, buf, bounce
    ensures rc.Ok? ==> n < Lap(dev.bb) && (n == 0 || lba + n <= dev.nBlocks)
    ensures rc.Ok? ==> dev.log == old(dev.log) + Plan(lba, n, dev.bb)
    ensures rc.Ok? ==> Filled(old(buf[..]), buf[..], dev.media[..], Bytes(lba, dev.bb), Bytes(n, dev.bb))
    ensures n == 0 ==> rc.Ok? && buf[..] == old(buf[..])
    ensures n < Lap(dev.bb) && lba + n <= dev.nBlocks && (forall k: nat :: outcomes(k).Done?) ==> rc.Ok?
  {
    var bb := dev.bb;
    var total, off, cmd := Bytes(n, bb), 0, 0;
    ghost var done, was, p := 0, buf[..], Bytes(lba, bb);
    UnderwayStart(n, bb);
    while off < total
      invariant Underway(n, done, bb, off) && (done == 0 || lba + done <= dev.nBlocks)
      invariant Filled(was, buf[..], dev.media[..], p, off)
      invariant OnPlan(old(dev.log), dev.log, lba, n, done, bb)
      decreases n - done
    {
      UnderwayNext(n, done, bb, off);
      BytesAdd(lba, done, bb);
      var chunk := ChunkSize(total, off);
      OnPlanNext(old(dev.log), dev.log, lba, n, done, bb);
      var rc' := ReadOne(dev, bounce, lba + off / bb, chunk / bb, buf, off, outcomes(cmd), was, p);
      if !rc'.Ok? {
        return rc';
      }
      done := done + chunk / bb;
      off := off + chunk;
      cmd := cmd + 1;
    }
    UnderwayEnd(n, done, bb, off);
    return Ok;
  }

  // ---- the file-system block view ------------------------------------------------------

  /** LBAs per file-system block. */
  function PerBlock(bb: nat): nat
    requires 0 < bb
  {
    FS_BLOCK / bb
  }

  /** A partition of `lbas` LBAs from `base` on. */
  datatype Partition = Partition(base: nat, lbas: nat) {
    ghost predicate Fits(dev: Nvme) { base + lbas <= dev.nBlocks }

    function Blocks(bb: nat): nat
      requires Geometry(bb)
    {
      PerBlockPositive(bb);
      lbas / PerBlock(bb)
    }

    /** Where block b begins, in bytes. */
    function Start(b: nat, bb: nat): nat { Bytes(base, bb) + b * FS_BLOCK }
  }

  lemma PerBlockPositive(bb: nat)
    requires Geometry(bb)
    ensures 0 < PerBlock(bb) && Bytes(PerBlock(bb), bb) == FS_BLOCK
  {
    assert FS_BLOCK == bb * (FS_BLOCK / bb);
  }

  lemma BlockBytes(n: nat, bb: nat)
    requires Geometry(bb)
    ensures Bytes(n * PerBlock(bb), bb) == n * FS_BLOCK
  {
    PerBlockPositive(bb);
    assert n * PerBlock(bb) * bb == n * (PerBlock(bb) * bb);
  }

  /** Blocks of the partition lie inside it. */
  lemma BlocksInPartition(part: Partition, block: nat, n: nat, bb: nat)
    requires Geometry(bb) && block + n <= part.Blocks(bb)
    ensures block * PerBlock(bb) + n * PerBlock(bb) <= part.lbas
    ensures Bytes(part.base + block * PerBlock(bb), bb) == part.Start(block, bb)
    ensures part.Start(block, bb) + n * FS_BLOCK <= Bytes(part.base, bb) + Bytes(part.lbas, bb)
  {
    PerBlockPositive(bb);
    var q, r := Divide(part.lbas, PerBlock(bb));
    MulMono(block + n, q, PerBlock(bb));
    assert (block + n) * PerBlock(bb) == block * PerBlock(bb) + n * PerBlock(bb);
    BytesAdd(part.base, block * PerBlock(bb), bb);
    BlockBytes(block, bb);
    BlockBytes(n, bb);
    BytesAdd(block * PerBlock(bb), n * PerBlock(bb), bb);
    BytesMono(block * PerBlock(bb) + n * PerBlock(bb), part.lbas, bb);
  }

  /** The contents of block b. */
  ghost function BlockAt(media: seq<u8>, part: Partition, b: nat, bb: nat): seq<u8>
    requires part.Start(b, bb) + FS_BLOCK <= |media|
  {
    media[part.Start(b, bb)..part.Start(b, bb) + FS_BLOCK]
  }

  /** All blocks of the partition are on the media. */
  lemma BlockOnMedia(dev: Nvme, part: Partition, b: nat)
    requires dev.Valid() && Geometry(dev.bb) && part.Fits(dev) && b < part.Blocks(dev.bb)
    ensures part.Start(b, dev.bb) + FS_BLOCK <= dev.media.Length
  {
    BlocksInPartition(part, b, 1, dev.bb);
    BytesAdd(part.base, part.lbas, dev.bb);
    BytesMono(part.base + part.lbas, dev.nBlocks, dev.bb);
  }

  lemma BlockInBuffer(i: nat, n: nat)
    requires i < n
    ensures 0 <= i * FS_BLOCK < (i + 1) * FS_BLOCK <= n * FS_BLOCK
  {}

  /** Block number i of a buffer of n blocks. */
  ghost function Piece(buf: seq<u8>, i: nat, n: nat): seq<u8>
    requires i < n && n * FS_BLOCK <= |buf|
  {
    BlockInBuffer(i, n);
    buf[i * FS_BLOCK..(i + 1) * FS_BLOCK]
  }

  ghost predicate OnMedia(size: nat, part: Partition, bb: nat)
    requires Geometry(bb)
  {
    forall b: nat | b < part.Blocks(bb) :: part.Start(b, bb) + FS_BLOCK <= size
  }

  /** The n blocks from `block` on hold the bytes of buf. */
  ghost predicate Holds(media: seq<u8>, part: Partition, block: nat, n: nat, buf: seq<u8>, bb: nat)
    requires Geometry(bb) && OnMedia(|media|, part, bb) && n * FS_BLOCK <= |buf| && block + n <= part.Blocks(bb)
  {
    forall b: nat | block <= b < block + n :: BlockAt(media, part, b, bb) == Piece(buf, b - block, n)
  }

  /** Every other block is as it was. */
  ghost predicate OthersSame(was: seq<u8>, now: seq<u8>, part: Partition, block: nat, n: nat, bb: nat)
    requires Geometry(bb) && OnMedia(|was|, part, bb) && |was| == |now|
  {
    forall b: nat | b < part.Blocks(bb) && !(block <= b < block + n) ::
      BlockAt(now, part, b, bb) == BlockAt(was, part, b, bb)
  }

  lemma WrittenHolds(was: seq<u8>, now: seq<u8>, part: Partition, block: nat, n: nat, buf: seq<u8>, bb: nat)
    requires Geometry(bb) && OnMedia(|now|, part, bb) && n * FS_BLOCK <= |buf| && block + n <= part.Blocks(bb)
    requires Written(was, now, part.Start(block, bb), buf, n * FS_BLOCK)
    ensures Holds(now, part, block, n, buf, bb)
  {
    forall b: nat | block <= b < block + n ensures BlockAt(now, part, b, bb) == Piece(buf, b - block, n) {
      BlockInBuffer(b - block, n);
      assert part.Start(b, bb) == part.Start(block, bb) + (b - block) * FS_BLOCK;
      forall j | 0 <= j < FS_BLOCK ensures BlockAt(now, part, b, bb)[j] == Piece(buf, b - block, n)[j] {}
    }
  }

  lemma FilledHolds(was: seq<u8>, media: seq<u8>, part: Partition, block: nat, n: nat, buf: seq<u8>, bb: nat)
    requires Geometry(bb) && OnMedia(|media|, part, bb) && n * FS_BLOCK <= |buf| && block + n <= part.Blocks(bb)
    requires Filled(was, buf, media, part.Start(block, bb), n * FS_BLOCK)
    ensures Holds(media, part, block, n, buf, bb)
  {
    forall b: nat | block <= b < block + n ensures BlockAt(media, part, b, bb) == Piece(buf, b - block, n) {
      BlockInBuffer(b - block, n);
      assert part.Start(b, bb) == part.Start(block, bb) + (b - block) * FS_BLOCK;
      forall j | 0 <= j < FS_BLOCK ensures BlockAt(media, part, b, bb)[j] == Piece(buf, b - block, n)[j] {}
    }
  }

  lemma WrittenOthers(was: seq<u8>, now: seq<u8>, part: Partition, block: nat, n: nat, bb: nat)
    requires Geometry(bb) && OnMedia(|was|, part, bb) && OnlyWithin(was, now, part.Start(block, bb), n * FS_BLOCK)
    ensures OthersSame(was, now, part, block, n, bb)
  {
    forall b: nat | b < part.Blocks(bb) && !(block <= b < block + n)
      ensures BlockAt(now, part, b, bb) == BlockAt(was, part, b, bb)
    {
      forall j | 0 <= j < FS_BLOCK ensures BlockAt(now, part, b, bb)[j] == BlockAt(was, part, b, bb)[j] {}
    }
  }

  /** The 32-bit product n * lba_per_block of bd_read and bd_write. */
  function LbaCount(n: nat, bb: nat): nat
    requires 0 < bb
  {
    n * PerBlock(bb) % TWO32
  }

  lemma LbaCountAtMost(n: nat, bb: nat)
    requires 0 < bb
    ensures LbaCount(n, bb) <= n * PerBlock(bb)
    ensures LbaCount(n, bb) == n * PerBlock(bb) <==> n * PerBlock(bb) < TWO32
  {
    var x := n * PerBlock(bb);
    if x < TWO32 { DivModUnique(x, TWO32, 0, x); }
  }

  /** What a bd_write that succeeded did: the bytes of LbaCount LBAs, no more. */
  ghost predicate WroteCount(was: seq<u8>, now: seq<u8>, part: Partition, block: nat, n: nat, buf: seq<u8>, bb: nat)
    requires Geometry(bb)
  {
    LbaCount(n, bb) < Lap(bb) && Written(was, now, part.Start(block, bb), buf, Bytes(LbaCount(n, bb), bb))
  }

  /** A bd_write of these blocks that succeeds has always written them. */
  ghost predicate SuccessMeansWritten(size: nat, part: Partition, block: nat, n: nat, bb: nat)
    requires Geometry(bb) && OnMedia(size, part, bb) && block + n <= part.Blocks(bb)
  {
    forall was: seq<u8>, now: seq<u8>, buf: seq<u8> |
      |was| == |now| == size && n * FS_BLOCK <= |buf| && WroteCount(was, now, part, block, n, buf, bb) ::
      Holds(now, part, block, n, buf, bb)
  }

  /** Success means what it says exactly when the LBA count does not wrap, or wraps to 2^32 bytes or
      more, which nvme_chunked never completes. */
  lemma SuccessExactly(size: nat, part: Partition, block: nat, n: nat, bb: nat)
    requires Geometry(bb) && OnMedia(size, part, bb) && block + n <= part.Blocks(bb)
    ensures SuccessMeansWritten(size, part, block, n, bb) <==> n * PerBlock(bb) < TWO32 || LbaCount(n, bb) >= Lap(bb)
  {
    LbaCountAtMost(n, bb);
    BlockBytes(n, bb);
    if n * PerBlock(bb) < TWO32 {
      forall was: seq<u8>, now: seq<u8>, buf: seq<u8> |
        |was| == |now| == size && n * FS_BLOCK <= |buf| && WroteCount(was, now, part, block, n, buf, bb)
        ensures Holds(now, part, block, n, buf, bb)
      {
        WrittenHolds(was, now, part, block, n, buf, bb);
      }
    } else if LbaCount(n, bb) < Lap(bb) {
      ShortWrite(size, part, block, n, bb);
    }
  }

  /** Zeroes on the media, ones in the buffer: the last block keeps zeroes. */
  lemma ShortWrite(size: nat, part: Partition, block: nat, n: nat, bb: nat)
    requires Geometry(bb) && OnMedia(size, part, bb) && block + n <= part.Blocks(bb)
    requires n * PerBlock(bb) >= TWO32 && LbaCount(n, bb) < Lap(bb)
    ensures !SuccessMeansWritten(size, part, block, n, bb)
  {
    var p, len := part.Start(block, bb), Bytes(LbaCount(n, bb), bb);
    LbaCountAtMost(n, bb);
    BlockBytes(n, bb);
    BytesStrict(LbaCount(n, bb), n * PerBlock(bb), bb);
    BlocksEnd(size, part, block, n, bb);
    var was, buf := seq<u8>(size, i => 0), seq<u8>(n * FS_BLOCK, i => 1);
    var now := Splice(was, p, buf[..len]);
    assert WroteCount(was, now, part, block, n, buf, bb);
    if Holds(now, part, block, n, buf, bb) { LastByte(now, part, block, n, buf, bb); }
  }

  lemma BytesStrict(a: nat, b: nat, bb: nat)
    requires a < b && 0 < bb
    ensures Bytes(a, bb) < Bytes(b, bb)
  {
    MulMono(a + 1, b, bb);
    assert (a + 1) * bb == a * bb + bb;
  }

  lemma BlocksEnd(size: nat, part: Partition, block: nat, n: nat, bb: nat)
    requires Geometry(bb) && OnMedia(size, part, bb) && block + n <= part.Blocks(bb) && 0 < n
    ensures part.Start(block, bb) + n * FS_BLOCK <= size
  {
    assert part.Start(block + n - 1, bb) + FS_BLOCK <= size;
    assert (block + n - 1) * FS_BLOCK == block * FS_BLOCK + n * FS_BLOCK - FS_BLOCK;
  }

  lemma LastByte(media: seq<u8>, part: Partition, block: nat, n: nat, buf: seq<u8>, bb: nat)
    requires Geometry(bb) && OnMedia(|media|, part, bb)
    requires n * FS_BLOCK <= |buf| && block + n <= part.Blocks(bb) && 0 < n
    requires Holds(media, part, block, n, buf, bb)
    ensures part.Start(block, bb) + n * FS_BLOCK <= |media|
    ensures media[part.Start(block, bb) + n * FS_BLOCK - 1] == buf[n * FS_BLOCK - 1]
  {
    BlocksEnd(|media|, part, block, n, bb);
    var b := block + n - 1;
    BlockInBuffer(n - 1, n);
    assert BlockAt(media, part, b, bb) == Piece(buf, b - block, n);
    assert part.Start(b, bb) == part.Start(block, bb) + (n - 1) * FS_BLOCK;
    assert BlockAt(media, part, b, bb)[FS_BLOCK - 1] == Piece(buf, n - 1, n)[FS_BLOCK - 1];
  }

  /** 2^29 blocks of 512-byte LBAs: success, and nothing is written. */
  lemma SilentWrite(size: nat, part: Partition, block: nat)
    requires Geometry(512) && OnMedia(size, part, 512) && block + 0x2000_0000 <= part.Blocks(512)
    ensures LbaCount(0x2000_0000, 512) == 0 && !SuccessMeansWritten(size, part, block, 0x2000_0000, 512)
  {
    assert PerBlock(512) == 8 && 0x2000_0000 * 8 == TWO32;
    LapIsWhole(512);
    SuccessExactly(size, part, block, 0x2000_0000, 512);
  }

  lemma CountFits(n: nat, bb: nat)
    requires Geometry(bb) && n * FS_BLOCK < TWO32
    ensures n * PerBlock(bb) < TWO32
  {
    PerBlockPositive(bb);
    BlockBytes(n, bb);
    assert n * PerBlock(bb) <= Bytes(n * PerBlock(bb), bb) by { MulMono(1, bb, n * PerBlock(bb)); }
  }

  /** The transfer bd_read and bd_write ask for, in LBAs and in bytes. */
  lemma Prepare(dev: Nvme, part: Partition, block: nat, n: nat, lba: nat, lbas: nat)
    requires dev.Valid() && Geometry(dev.bb) && part.Fits(dev) && block + n <= part.Blocks(dev.bb)
    requires lba == part.base + block * PerBlock(dev.bb) && lbas == LbaCount(n, dev.bb)
    ensures OnMedia(dev.media.Length, part, dev.bb) && lba + lbas <= dev.nBlocks
    ensures Bytes(lba, dev.bb) == part.Start(block, dev.bb) && Bytes(lbas, dev.bb) <= n * FS_BLOCK
    ensures n * PerBlock(dev.bb) < TWO32 ==> Bytes(lbas, dev.bb) == n * FS_BLOCK
    ensures n * FS_BLOCK < TWO32 ==> lbas < Lap(dev.bb)
  {
    var bb := dev.bb;
    PartitionOnMedia(dev, part);
    BlocksInPartition(part, block, n, bb);
    BlockBytes(n, bb);
    LbaCountAtMost(n, bb);
    BytesMono(lbas, n * PerBlock(bb), bb);
    if n * FS_BLOCK < TWO32 {
      CountFits(n, bb);
      BytesModulo(n * PerBlock(bb), bb);
    }
  }

  /** bd_write of blocks inside the partition: the block device is an array of blocks, and nothing
      outside the partition changes. */
  method BdWrite(dev: Nvme, bounce: array<u8>, part: Partition, block: nat, n: nat, buf: array<u8>,
                 outcomes: nat -> Outcome)
    returns (rc: Rc)
    requires dev.Valid() && Geometry(dev.bb) && bounce.Length == BOUNCE && n * FS_BLOCK <= buf.Length
    requires bounce != dev.media && buf != dev.media && buf != bounce
    requires part.Fits(dev) && block + n <= part.Blocks(dev.bb)
    modifies dev`log, dev.media, bounce
    ensures OnMedia(dev.media.Length, part, dev.bb)
    ensures rc.Ok? ==> WroteCount(old(dev.media[..]), dev.media[..], part, block, n, buf[..], dev.bb)
    ensures rc.Ok? && n * PerBlock(dev.bb) < TWO32 ==> Holds(dev.media[..], part, block, n, buf[..], dev.bb)
    ensures LbaCount(n, dev.bb) == 0 ==> rc.Ok? && dev.media[..] == old(dev.media[..])
    ensures OthersSame(old(dev.media[..]), dev.media[..], part, block, n, dev.bb)
    ensures OnlyWithin(old(dev.media[..]), dev.media[..], Bytes(part.base, dev.bb), Bytes(part.lbas, dev.bb))
    ensures n * FS_BLOCK < TWO32 && (forall k: nat :: outcomes(k).Done?) ==> rc.Ok?
  {
    var bb := dev.bb;
    ghost var was := dev.media[..];
    var lba, lbas := part.base + block * PerBlock(bb), LbaCount(n, bb);
    Prepare(dev, part, block, n, lba, lbas);
    rc := ChunkedWrite(dev, bounce, lba, lbas, buf, outcomes);
    WroteBlocks(was, dev.media[..], part, block, n, buf[..], bb, rc.Ok?);
  }

  lemma WroteBlocks(was: seq<u8>, now: seq<u8>, part: Partition, block: nat, n: nat, buf: seq<u8>, bb: nat, ok: bool)
    requires Geometry(bb) && OnMedia(|was|, part, bb) && |was| == |now| && n * FS_BLOCK <= |buf|
    requires block + n <= part.Blocks(bb) && Bytes(LbaCount(n, bb), bb) <= n * FS_BLOCK
    requires n * PerBlock(bb) < TWO32 ==> Bytes(LbaCount(n, bb), bb) == n * FS_BLOCK
    requires ok ==> Written(was, now, part.Start(block, bb), buf, Bytes(LbaCount(n, bb), bb))
    requires OnlyWithin(was, now, part.Start(block, bb), Bytes(LbaCount(n, bb), bb))
    ensures ok && n * PerBlock(bb) < TWO32 ==> Holds(now, part, block, n, buf, bb)
    ensures OthersSame(was, now, part, block, n, bb)
    ensures OnlyWithin(was, now, Bytes(part.base, bb), Bytes(part.lbas, bb))
  {
    if ok && n * PerBlock(bb) < TWO32 { WrittenHolds(was, now, part, block, n, buf, bb); }
    OnlyWithinMore(was, now, part.Start(block, bb), Bytes(LbaCount(n, bb), bb), n * FS_BLOCK);
    WrittenOthers(was, now, part, block, n, bb);
    WithinPartition(was, now, part, block, n, bb);
  }

  lemma WithinPartition(was: seq<u8>, now: seq<u8>, part: Partition, block: nat, n: nat, bb: nat)
    requires Geometry(bb) && block + n <= part.Blocks(bb)
    requires OnlyWithin(was, now, part.Start(block, bb), n * FS_BLOCK)
    ensures OnlyWithin(was, now, Bytes(part.base, bb), Bytes(part.lbas, bb))
  {
    BlocksInPartition(part, block, n, bb);
  }

  /** bd_read of blocks inside the partition returns their contents: what was last written there. */
  method BdRead(dev: Nvme, bounce: array<u8>, part: Partition, block: nat, n: nat, buf: array<u8>,
                outcomes: nat -> Outcome)
    returns (rc: Rc)
    requires dev.Valid() && Geometry(dev.bb) && bounce.Length == BOUNCE && n * FS_BLOCK <= buf.Length
    requires bounce != dev.media && buf != dev.media && buf != bounce
    requires part.Fits(dev) && block + n <= part.Blocks(dev.bb)
    modifies dev`log, buf, bounce
    ensures OnMedia(dev.media.Length, part, dev.bb)
    ensures rc.Ok? ==> ReadCount(old(buf[..]), buf[..], dev.media[..], part, block, n, dev.bb)
    ensures rc.Ok? && n * PerBlock(dev.bb) < TWO32 ==> Holds(dev.media[..], part, block, n, buf[..], dev.bb)
    ensures LbaCount(n, dev.bb) == 0 ==> rc.Ok? && buf[..] == old(buf[..])
    ensures n * FS_BLOCK < TWO32 && (forall k: nat :: outcomes(k).Done?) ==> rc.Ok?
  {
    var bb := dev.bb;
    ghost var was := buf[..];
    var lba, lbas := part.base + block * PerBlock(bb), LbaCount(n, bb);
    Prepare(dev, part, block, n, lba, lbas);
    rc := ChunkedRead(dev, bounce, lba, lbas, buf, outcomes);
    if rc.Ok? && n * PerBlock(bb) < TWO32 {
      FilledHolds(was, dev.media[..], part, block, n, buf[..], bb);
    }
  }

  /** What a bd_read that succeeded did: the bytes of LbaCount LBAs, no more. */
  ghost predicate ReadCount(was: seq<u8>, now: seq<u8>, media: seq<u8>, part: Partition, block: nat, n: nat, bb: nat)
    requires Geometry(bb)
  {
    LbaCount(n, bb) < Lap(bb) && Filled(was, now, media, part.Start(block, bb), Bytes(LbaCount(n, bb), bb))
  }

  /** A bd_read of these blocks that succeeds has always returned them. */
  ghost predicate SuccessMeansRead(size: nat, part: Partition, block: nat, n: nat, bb: nat)
    requires Geometry(bb) && OnMedia(size, part, bb) && block + n <= part.Blocks(bb)
  {
    forall was: seq<u8>, now: seq<u8>, media: seq<u8> |
      |media| == size && n * FS_BLOCK <= |was| && ReadCount(was, now, media, part, block, n, bb) ::
      n * FS_BLOCK <= |now| && Holds(media, part, block, n, now, bb)
  }

  /** The same condition as for writes. */
  lemma ReadSuccessExactly(size: nat, part: Partition, block: nat, n: nat, bb: nat)
    requires Geometry(bb) && OnMedia(size, part, bb) && block + n <= part.Blocks(bb)
    ensures SuccessMeansRead(size, part, block, n, bb) <==> n * PerBlock(bb) < TWO32 || LbaCount(n, bb) >= Lap(bb)
  {
    LbaCountAtMost(n, bb);
    BlockBytes(n, bb);
    if n * PerBlock(bb) < TWO32 {
      forall was: seq<u8>, now: seq<u8>, media: seq<u8> |
        |media| == size && n * FS_BLOCK <= |was| && ReadCount(was, now, media, part, block, n, bb)
        ensures n * FS_BLOCK <= |now| && Holds(media, part, block, n, now, bb)
      {
        FilledHolds(was, media, part, block, n, now, bb);
      }
    } else if LbaCount(n, bb) < Lap(bb) {
      ShortRead(size, part, block, n, bb);
    }
  }

  /** Ones on the media, zeroes in the buffer: its end keeps zeroes. */
  lemma ShortRead(size: nat, part: Partition, block: nat, n: nat, bb: nat)
    requires Geometry(bb) && OnMedia(size, part, bb) && block + n <= part.Blocks(bb)
    requires n * PerBlock(bb) >= TWO32 && LbaCount(n, bb) < Lap(bb)
    ensures !SuccessMeansRead(size, part, block, n, bb)
  {
    var p, len := part.Start(block, bb), Bytes(LbaCount(n, bb), bb);
    LbaCountAtMost(n, bb);
    BlockBytes(n, bb);
    BytesStrict(LbaCount(n, bb), n * PerBlock(bb), bb);
    BlocksEnd(size, part, block, n, bb);
    var media, was := seq<u8>(size, i => 1), seq<u8>(n * FS_BLOCK, i => 0);
    var now := Splice(was, 0, media[p..p + len]);
    assert ReadCount(was, now, media, part, block, n, bb);
    if Holds(media, part, block, n, now, bb) { LastByte(media, part, block, n, now, bb); }
  }

  lemma PartitionOnMedia(dev: Nvme, part: Partition)
    requires dev.Valid() && Geometry(dev.bb) && part.Fits(dev)
    ensures OnMedia(dev.media.Length, part, dev.bb)
  {
    forall b: nat | b < part.Blocks(dev.bb) ensures part.Start(b, dev.bb) + FS_BLOCK <= dev.media.Length {
      BlockOnMedia(dev, part, b);
    }
  }
}
