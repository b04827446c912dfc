/** The pipes of eeos_pipe.c: ring buffers with ever-growing positions, reached
    through pairs of descriptors. */
module Pipes {

  import opened Wrappers

  const NR_PIPE := 8
  const MIN_PIPE_NO := 3
  const CAPACITY := 4096

  /** The bytes between two positions of a ring of 4096 bytes. */
  function Window(ring: seq<byte>, from: nat, to: nat): (s: seq<byte>)
    requires |ring| == CAPACITY && from <= to
    ensures |s| == to - from
  {
    seq(to - from, k requires 0 <= k < to - from => ring[(from + k) % CAPACITY])
  }

  /** Positions less than a whole ring apart have slots of their own. */
  lemma SlotsDiffer(i: nat, j: nat)
    requires i < j < i + CAPACITY
    ensures i % CAPACITY != j % CAPACITY
  {}

  lemma WindowAt(ring: seq<byte>, from: nat, to: nat, k: nat)
    requires |ring| == CAPACITY && from + k < to
    ensures Window(ring, from, to)[k] == ring[(from + k) % CAPACITY]
  {}

  lemma WindowDrop(ring: seq<byte>, from: nat, mid: nat, to: nat)
    requires |ring| == CAPACITY && from <= mid <= to
    ensures Window(ring, mid, to) == Window(ring, from, to)[mid - from..]
    ensures Window(ring, from, to) == Window(ring, from, to)[..mid - from] + Window(ring, mid, to)
  {}

  lemma WindowGrows(ring: seq<byte>, from: nat, to: nat, b: byte)
    requires |ring| == CAPACITY && from <= to < from + CAPACITY
    ensures Window(ring[to % CAPACITY := b], from, to + 1) == Window(ring, from, to) + [b]
  {
    var next := Window(ring[to % CAPACITY := b], from, to + 1);
    forall k | 0 <= k < to - from
      ensures next[k] == Window(ring, from, to)[k]
    {
      SlotsDiffer(from + k, to);
    }
  }

  predicate IsValid(fd: int) {
    MIN_PIPE_NO <= fd < MIN_PIPE_NO + 2 * NR_PIPE
  }

  function Handle(fd: int): nat
    requires IsValid(fd)
  {
    (fd - MIN_PIPE_NO) / 2
  }

  predicate IsReader(fd: int) {
    IsValid(fd) && (fd - MIN_PIPE_NO) % 2 == 0
  }

  predicate IsWriter(fd: int) {
    IsValid(fd) && (fd - MIN_PIPE_NO) % 2 == 1
  }

  // ----- The pipes, as values -----------------------------------------------------------

  /** One slot: which ends are open, and the bytes that were accepted and not
      delivered. */
  datatype Slot = Slot(rd: bool, wr: bool, buffered: seq<byte>)

  function Vacant(): Slot {
    Slot(false, false, [])
  }

  predicate IsVacant(s: Slot) {
    !s.rd && !s.wr
  }

  /** A call: count bytes are asked for, or the bytes of `data` offered. */
  datatype Call = Create | Read(fd: int, count: int) | Write(fd: int, data: seq<byte>) | Close(fd: int)

  function FirstVacant(m: seq<Slot>): (i: nat)
    ensures i <= |m| && (i < |m| ==> IsVacant(m[i])) && forall k | 0 <= k < i :: !IsVacant(m[k])
  {
    if m == [] || IsVacant(m[0]) then 0 else 1 + FirstVacant(m[1..])
  }

  function Clamp(count: int, room: nat): (n: nat)
    ensures n <= room
  {
    if count <= 0 then 0 else if count <= room then count else room
  }

  /** The bytes that a call delivers, and those that it accepts. */
  function Delivered(m: seq<Slot>, c: Call): seq<byte>
    requires |m| == NR_PIPE
  {
    if c.Read? && IsReader(c.fd) && m[Handle(c.fd)].rd then
      m[Handle(c.fd)].buffered[..Clamp(c.count, |m[Handle(c.fd)].buffered|)]
    else []
  }

  function Accepted(m: seq<Slot>, c: Call): seq<byte>
    requires |m| == NR_PIPE
  {
    if c.Write? && IsWriter(c.fd) && m[Handle(c.fd)].wr && |m[Handle(c.fd)].buffered| <= CAPACITY then
      c.data[..Clamp(|c.data|, CAPACITY - |m[Handle(c.fd)].buffered|)]
    else []
  }

  /** A slot after one of its two ends was closed; with the second it is given up. */
  function Closed(s: Slot, fd: int): Slot
    requires IsValid(fd)
  {
    var r := if IsReader(fd) then s.(rd := false) else s.(wr := false);
    if IsVacant(r) then Vacant() else r
  }

  function Next(m: seq<Slot>, c: Call): (r: seq<Slot>)
    requires |m| == NR_PIPE
    ensures |r| == NR_PIPE
  {
    match c
    case Create =>
      var i := FirstVacant(m);
      if i == NR_PIPE then m else m[i := Slot(true, true, [])]
    case Read(fd, count) =>
      if !IsReader(fd) then m
      else m[Handle(fd) := m[Handle(fd)].(buffered := m[Handle(fd)].buffered[|Delivered(m, c)|..])]
    case Write(fd, data) =>
      if !IsWriter(fd) then m
      else m[Handle(fd) := m[Handle(fd)].(buffered := m[Handle(fd)].buffered + Accepted(m, c))]
    case Close(fd) =>
      if !IsOpenEnd(m, fd) then m else m[Handle(fd) := Closed(m[Handle(fd)], fd)]
  }

  /** The descriptor names an end that is open. */
  predicate IsOpenEnd(m: seq<Slot>, fd: int)
    requires |m| == NR_PIPE
  {
    (IsReader(fd) && m[Handle(fd)].rd) || (IsWriter(fd) && m[Handle(fd)].wr)
  }

  function After(m: seq<Slot>, cs: seq<Call>): (r: seq<Slot>)
    requires |m| == NR_PIPE
    ensures |r| == NR_PIPE
    decreases |cs|
  {
    if cs == [] then m else After(Next(m, cs[0]), cs[1..])
  }

  /** All bytes that a run delivers from slot `h`, and all that it accepts there. */
  function BytesOut(m: seq<Slot>, cs: seq<Call>, h: nat): seq<byte>
    requires |m| == NR_PIPE
    decreases |cs|
  {
    if cs == [] then []
    else (if Concerns(cs[0], h) then Delivered(m, cs[0]) else []) + BytesOut(Next(m, cs[0]), cs[1..], h)
  }

  function BytesIn(m: seq<Slot>, cs: seq<Call>, h: nat): seq<byte>
    requires |m| == NR_PIPE
    decreases |cs|
  {
    if cs == [] then []
    else (if Concerns(cs[0], h) then Accepted(m, cs[0]) else []) + BytesIn(Next(m, cs[0]), cs[1..], h)
  }

  predicate Concerns(c: Call, h: nat) {
    !c.Create? && IsValid(c.fd) && Handle(c.fd) == h
  }

  /** Slot `h` has an open end throughout the run. */
  predicate StaysOpen(m: seq<Slot>, cs: seq<Call>, h: nat)
    requires |m| == NR_PIPE && h < NR_PIPE
    decreases |cs|
  {
    !IsVacant(m[h]) && (cs == [] || StaysOpen(Next(m, cs[0]), cs[1..], h))
  }

  /** No slot holds more than its ring, and a slot that is given up holds nothing. */
  ghost predicate WithinCapacity(m: seq<Slot>) {
    forall i | 0 <= i < |m| :: |m[i].buffered| <= CAPACITY && (IsVacant(m[i]) ==> m[i] == Vacant())
  }

  lemma CapacityKept(m: seq<Slot>, c: Call)
    requires |m| == NR_PIPE && WithinCapacity(m)
    ensures WithinCapacity(Next(m, c))
  {}

  lemma NothingAccepted(m: seq<Slot>, fd: int, data: seq<byte>)
    requires |m| == NR_PIPE
    ensures Accepted(m, Call.Write(fd, data)) == [] ==> Next(m, Call.Write(fd, data)) == m
  {
    if IsWriter(fd) {
      var s := m[Handle(fd)];
      assert s.buffered + [] == s.buffered;
    }
  }

  lemma NothingDelivered(m: seq<Slot>, fd: int, count: int)
    requires |m| == NR_PIPE
    ensures Delivered(m, Call.Read(fd, count)) == [] ==> Next(m, Call.Read(fd, count)) == m
  {
    if IsReader(fd) {
      var s := m[Handle(fd)];
      assert s.buffered[0..] == s.buffered;
    }
  }

  /** One call on a slot that stays open: what was buffered and what comes in is
      what goes out and what is buffered then; other slots are not touched. */
  lemma CallIsFifo(m: seq<Slot>, c: Call, h: nat)
    requires |m| == NR_PIPE && h < NR_PIPE && WithinCapacity(m) && !IsVacant(m[h])
    ensures !Concerns(c, h) ==> Next(m, c)[h] == m[h]
    ensures Concerns(c, h) && !IsVacant(Next(m, c)[h]) ==>
      m[h].buffered + Accepted(m, c) == Delivered(m, c) + Next(m, c)[h].buffered
  {
    if Concerns(c, h) {
      assert Handle(c.fd) == h;
      assert IsReader(c.fd) || IsWriter(c.fd);
      if c.Read? {
        var n := |Delivered(m, c)|;
        assert m[h].buffered == m[h].buffered[..n] + m[h].buffered[n..];
      }
    }
  }

  /** A pipe over any run of calls, those on other pipes included, is a queue:
      the bytes out are a prefix of the bytes in, in order, and what lies
      between them is what it holds, never more than its ring. */
  lemma {:induction false} RunIsFifo(m: seq<Slot>, cs: seq<Call>, h: nat)
    requires |m| == NR_PIPE && h < NR_PIPE && WithinCapacity(m) && StaysOpen(m, cs, h)
    ensures m[h].buffered + BytesIn(m, cs, h) == BytesOut(m, cs, h) + After(m, cs)[h].buffered
    ensures WithinCapacity(After(m, cs))
    decreases |cs|
  {
    hide WithinCapacity, Next;
    if cs != [] {
      CapacityKept(m, cs[0]);
      CallIsFifo(m, cs[0], h);
      var r := Next(m, cs[0]);
      RunIsFifo(r, cs[1..], h);
      Regroup(m[h].buffered, if Concerns(cs[0], h) then Accepted(m, cs[0]) else [], BytesIn(r, cs[1..], h),
              if Concerns(cs[0], h) then Delivered(m, cs[0]) else [], BytesOut(r, cs[1..], h), r[h].buffered, After(m, cs)[h].buffered);
    }
  }

  lemma Regroup(a: seq<byte>, x: seq<byte>, y: seq<byte>, u: seq<byte>, v: seq<byte>, b: seq<byte>, c: seq<byte>)
    requires a + x == u + b && b + y == v + c
    ensures a + (x + y) == (u + v) + c
  {
    assert a + (x + y) == (a + x) + y;
    assert (u + b) + y == u + (b + y);
    assert u + (v + c) == (u + v) + c;
  }

  /** From its creation on, what a pipe has delivered is a prefix of what it has accepted. */
  lemma DeliveredIsPrefix(m: seq<Slot>, cs: seq<Call>)
    requires |m| == NR_PIPE && WithinCapacity(m) && FirstVacant(m) < NR_PIPE
    requires StaysOpen(Next(m, Create), cs, FirstVacant(m))
    ensures var h, r := FirstVacant(m), Next(m, Create);
      && BytesOut(r, cs, h) <= BytesIn(r, cs, h)
      && |BytesIn(r, cs, h)| - |BytesOut(r, cs, h)| == |After(r, cs)[h].buffered| <= CAPACITY
  {
    var h, r := FirstVacant(m), Next(m, Create);
    CapacityKept(m, Create);
    RunIsFifo(r, cs, h);
    assert r[h].buffered + BytesIn(r, cs, h) == BytesIn(r, cs, h);
  }

  // ----- Amounts, on slots and descriptors --------------------------------------------------

  /** Descriptor 3 + 2 * h is the read end of slot h, and the next its write end. */
  lemma Descriptors(h: nat)
    requires h < 8
    ensures IsReader(3 + 2 * h) && IsWriter(4 + 2 * h) && Handle(3 + 2 * h) == h == Handle(4 + 2 * h)
    ensures !IsWriter(3 + 2 * h) && !IsReader(4 + 2 * h)
    ensures !IsValid(2) && !IsValid(19)
  {}

  /** A read of `count` bytes at an open read end delivers as many as there are,
      up to `count`, from the front; an end that is closed delivers nothing. */
  lemma ReadAmount(m: seq<Slot>, h: nat, count: int)
    requires |m| == 8 && h < 8
    ensures var held := m[h].buffered; var c := Call.Read(3 + 2 * h, count);
      var n := if !m[h].rd || count < 0 then 0 else if count < |held| then count else |held|;
      && Delivered(m, c) == held[..n] && |Delivered(m, c)| == n
      && Next(m, c)[h].buffered == held[n..] && Next(m, c)[h].rd == m[h].rd && Next(m, c)[h].wr == m[h].wr
  {
    Descriptors(h);
  }

  /** A write at an open write end is accepted up to the room left in 4096 bytes. */
  lemma WriteAmount(m: seq<Slot>, h: nat, data: seq<byte>)
    requires |m| == 8 && h < 8 && |m[h].buffered| <= 4096
    ensures var held := m[h].buffered; var c := Call.Write(4 + 2 * h, data);
      var n := if !m[h].wr then 0 else if |data| < 4096 - |held| then |data| else 4096 - |held|;
      && Accepted(m, c) == data[..n] && |Accepted(m, c)| == n
      && Next(m, c)[h].buffered == held + data[..n] && Next(m, c)[h].rd == m[h].rd && Next(m, c)[h].wr == m[h].wr
  {
    Descriptors(h);
    assert m[h].buffered + [] == m[h].buffered;
  }

  /** A read at a write end, or a write at a read end, is nothing. */
  lemma WrongEnd(m: seq<Slot>, h: nat, count: int, data: seq<byte>)
    requires |m| == 8 && h < 8
    ensures Next(m, Call.Read(4 + 2 * h, count)) == m && Delivered(m, Call.Read(4 + 2 * h, count)) == []
    ensures Next(m, Call.Write(3 + 2 * h, data)) == m && Accepted(m, Call.Write(3 + 2 * h, data)) == []
  {
    Descriptors(h);
  }

  /** What is written to an empty pipe that is open at both ends, up to 4096
      bytes, comes out of the next read that is large enough, whole and in order,
      and leaves the pipe empty. */
  lemma WrittenIsRead(m: seq<Slot>, h: nat, data: seq<byte>, count: nat)
    requires |m| == 8 && h < 8 && m[h] == Slot(true, true, []) && |data| <= 4096 && |data| <= count
    ensures var w := Call.Write(4 + 2 * h, data); var r := Call.Read(3 + 2 * h, count);
      && Accepted(m, w) == data
      && Delivered(Next(m, w), r) == data
      && Next(Next(m, w), r)[h] == Slot(true, true, [])
  {
    WriteAmount(m, h, data);
    assert data[..|data|] == data && [] + data == data;
    ReadAmount(Next(m, Call.Write(4 + 2 * h, data)), h, count);
    hide Next, Delivered, Accepted;
  }

  /** The first pipe of a fresh manager. */
  method FirstPipe() returns (pipes: PipeMgr, rd: int, wr: int)
    ensures fresh(pipes) && pipes.Valid() && rd == 3 && wr == 4 && pipes.View()[0] == Slot(true, true, [])
    ensures fresh(pipes.Behind(rd)) && pipes.Behind(wr) == pipes.Behind(rd) && fresh(pipes.Rings())
  {
    pipes := new PipeMgr();
    ghost var m := pipes.View();
    assert m[0] == Vacant() && FirstVacant(m) == 0;
    assert forall q | q in pipes.bq :: q.p == null && fresh(q);
    var r;
    r, rd, wr := pipes.Create();
    Descriptors(0);
    assert forall i | 0 < i < NR_PIPE :: pipes.View()[i] == m[i] && pipes.bq[i].p == null;
  }

  /** The same through the calls: a fresh pipe, written and read once. */
  method WriteThenRead(data: array<byte>, buf: array<byte>) returns (written: nat, got: nat)
    requires data != buf && data.Length <= 4096 && data.Length <= buf.Length
    modifies buf
    ensures written == got == data.Length && buf[..got] == data[..]
  {
    hide Next, Delivered, Accepted, PipeMgr.Valid, PipeMgr.Rings, PipeMgr.Behind, Handle, IsReader, IsWriter, IsValid;
    Descriptors(0);
    var pipes, rd, wr := FirstPipe();
    ghost var m, bytes := pipes.View(), data[..];
    assert data[..data.Length] == bytes;
    WrittenIsRead(m, 0, bytes, data.Length);
    written := pipes.Write(wr, data, data.Length);
    got := pipes.Read(rd, buf, data.Length);
  }

  /** A slot becomes free exactly by closing its last open end. */
  lemma FreedByLastClose(m: seq<Slot>, c: Call, h: nat)
    requires |m| == NR_PIPE && h < NR_PIPE && !IsVacant(m[h])
    ensures IsVacant(Next(m, c)[h]) <==>
      c.Close? && Concerns(c, h) && (if IsReader(c.fd) then m[h].rd && !m[h].wr else m[h].wr && !m[h].rd)
  {}

  // ----- The ring buffers ------------------------------------------------------------------

  class ByteQueue {
    var p: array?<byte>
    var nbytes: int
    var maxcount: int
    var readPos: int
    var writePos: int
    var rdOpened: bool
    var wrOpened: bool

    constructor ()
      ensures Free() && Valid()
    {
      p, nbytes, maxcount, readPos, writePos := null, 0, 0, 0, 0;
      rdOpened, wrOpened := false, false;
    }

    predicate Free()
      reads this
    {
      !rdOpened && !wrOpened
    }

    /** A pipe with an open end has a ring of 4096 bytes and holds no more. */
    ghost predicate Valid()
      reads this, p
    {
      if Free() then p == null
      else
        && p != null && p.Length == maxcount == CAPACITY
        && 0 <= readPos <= writePos && nbytes == writePos - readPos <= maxcount
    }

    /** What was accepted and not yet delivered. */
    ghost function Buffered(): (s: seq<byte>)
      requires Valid()
      reads this, p
      ensures |s| <= CAPACITY
    {
      if Free() then [] else Window(p[..], readPos, writePos)
    }

    ghost function View(): Slot
      requires Valid()
      reads this, p
    {
      Slot(rdOpened, wrOpened, Buffered())
    }

    /** Lines 89-103 of eeos_pipe_create, with the memory granted. */
    method Open()
      requires Free()
      modifies this
      ensures Valid() && View() == Slot(true, true, []) && fresh(p)
    {
      p := new byte[CAPACITY];
      maxcount := CAPACITY;
      nbytes, readPos, writePos := 0, 0, 0;
      rdOpened, wrOpened := true, true;
    }

    /** Lines 129-136 of eeos_pipe_read. */
    method Read(buf: array<byte>, count: int) returns (readbytes: nat)
      requires Valid() && !Free() && buf != p && count <= buf.Length
      modifies this`readPos, this`nbytes, buf
      ensures Valid() && p == old(p)
      ensures readbytes == Clamp(count, |old(Buffered())|)
      ensures buf[..readbytes] == old(Buffered())[..readbytes] && buf[readbytes..] == old(buf[..])[readbytes..]
      ensures Buffered() == old(Buffered())[readbytes..]
    {
      hide Window;
      readbytes := CopyOut(buf, count);
      Consume(readbytes);
    }

    /** Lines 134-135: the read position moves past the bytes taken. */
    method Consume(readbytes: nat)
      requires Valid() && !Free() && readbytes <= |Buffered()|
      modifies this`readPos, this`nbytes
      ensures Valid() && Buffered() == old(Buffered())[readbytes..]
    {
      hide Window;
      WindowDrop(p[..], readPos, readPos + readbytes, writePos);
      readPos := readPos + readbytes;
      nbytes := writePos - readPos;
    }

    /** The copying loop (lines 130-133). */
    method CopyOut(buf: array<byte>, count: int) returns (readbytes: nat)
      requires Valid() && !Free() && buf != p && count <= buf.Length
      modifies buf
      ensures readbytes == Clamp(count, |Buffered()|)
      ensures buf[..readbytes] == Buffered()[..readbytes] && buf[readbytes..] == old(buf[..])[readbytes..]
    {
      hide Window;
      ghost var window := Buffered();
      var i, j := readPos, 0;
      readbytes := 0;
      while i < writePos && j < count
        invariant 0 <= j == readbytes && i == readPos + j <= writePos && (j == 0 || j <= count)
        invariant buf[..j] == window[..j] && buf[j..] == old(buf[..])[j..]
      {
        WindowAt(p[..], readPos, writePos, j);
        buf[j] := p[i % maxcount];
        assert buf[..j + 1] == buf[..j] + [window[j]] == window[..j + 1];
        readbytes := readbytes + 1;
        i := i + 1;
        j := j + 1;
      }
    }

    /** Lines 163-174 of eeos_pipe_write. */
    method Write(buf: array<byte>, count: int) returns (writebytes: nat)
      requires Valid() && !Free() && buf != p && count <= buf.Length
      modifies this`writePos, this`nbytes, p
      ensures Valid() && p == old(p)
      ensures writebytes == Clamp(count, CAPACITY - |old(Buffered())|)
      ensures Buffered() == old(Buffered()) + buf[..writebytes]
    {
      writebytes := CopyIn(buf, count);
      hide Window;
      writePos := writePos + writebytes;
      nbytes := writePos - readPos;
    }

    /** The copying loop (lines 164-172). */
    method CopyIn(buf: array<byte>, count: int) returns (writebytes: nat)
      requires Valid() && !Free() && buf != p && count <= buf.Length
      modifies p
      ensures writebytes == Clamp(count, CAPACITY - nbytes)
      ensures Window(p[..], readPos, writePos + writebytes) == old(Buffered()) + buf[..writebytes]
    {
      hide Window;
      ghost var window := Buffered();
      var emptys := maxcount - nbytes;
      var i, j := writePos, 0;
      assert window + buf[..0] == window;
      writebytes := 0;
      while j < count && j < emptys
        invariant 0 <= j == writebytes && i == writePos + j && j <= emptys && (j == 0 || j <= count)
        invariant Window(p[..], readPos, writePos + j) == window + buf[..j]
      {
        ghost var before := p[..];
        p[i % maxcount] := buf[j];
        WindowGrows(before, readPos, i, buf[j]);
        assert window + buf[..j + 1] == window + buf[..j] + [buf[j]];
        writebytes := writebytes + 1;
        i := i + 1;
        j := j + 1;
      }
    }

    /** Lines 199-204 of eeos_pipe_close: with both ends closed everything is
        given back. */
    method Release()
      modifies this
      ensures Valid() && View() == Vacant()
    {
      p, nbytes, maxcount, readPos, writePos := null, 0, 0, 0, 0;
      rdOpened, wrOpened := false, false;
    }
  }

  class PipeMgr {
    var inited: bool
    const bq: seq<ByteQueue>

    /** Eight queues that share neither their records nor their rings. */
    ghost predicate Valid()
      reads this, bq, Rings()
    {
      && |bq| == NR_PIPE
      && (forall i, j | 0 <= i < j < |bq| :: bq[i] != bq[j])
      && (forall i | 0 <= i < |bq| :: bq[i].Valid())
      && (forall i, j | 0 <= i < j < |bq| && bq[i].p != null :: bq[i].p != bq[j].p)
    }

    ghost function Rings(): set<object>
      reads bq
    {
      set q | q in bq && q.p != null :: q.p
    }

    ghost function View(): (m: seq<Slot>)
      requires Valid()
      reads this, bq, Rings()
      ensures |m| == NR_PIPE && forall i | 0 <= i < NR_PIPE :: m[i] == bq[i].View()
    {
      seq(NR_PIPE, i requires 0 <= i < NR_PIPE && Valid() reads this, bq, Rings() => bq[i].View())
    }

    /** The objects behind a descriptor. */
    ghost function Behind(fd: int): set<object>
      requires |bq| == NR_PIPE
      reads bq
    {
      if !IsValid(fd) then {}
      else {bq[Handle(fd)]} + if bq[Handle(fd)].p != null then {bq[Handle(fd)].p} else {}
    }

    /** The static initialisation of g_mgr: every slot zero, but `inited` set. */
    constructor ()
      ensures Valid() && inited && View() == seq(NR_PIPE, _ => Vacant()) && forall q | q in bq :: fresh(q)
    {
      var qs: seq<ByteQueue> := [];
      while |qs| < NR_PIPE
        invariant |qs| <= NR_PIPE
        invariant forall i | 0 <= i < |qs| :: fresh(qs[i]) && qs[i].Free() && qs[i].Valid()
        invariant forall i, j | 0 <= i < j < |qs| :: qs[i] != qs[j]
      {
        var q := new ByteQueue();
        qs := qs + [q];
      }
      bq, inited := qs, true;
    }

    /** eeos_pipe_init. Nothing but this method sets `inited`, and it refuses
        when it is set, as it is from the start. */
    method Init() returns (r: int)
      requires Valid()
      modifies this`inited, bq
      ensures Valid() && inited && r == if old(inited) then -1 else 0
      ensures View() == if old(inited) then old(View()) else seq(NR_PIPE, _ => Vacant())
    {
      if inited { return -1; }
      var i := 0;
      while i < NR_PIPE
        invariant 0 <= i <= NR_PIPE
        invariant Valid() && forall k | 0 <= k < i :: bq[k].View() == Vacant()
      {
        bq[i].Release();
        i := i + 1;
      }
      inited := true;
      return 0;
    }

    /** eeos_pipe_create: takes the first slot with both ends closed, if any. */
    method Create() returns (r: int, rd: int, wr: int)
      requires Valid()
      modifies bq
      ensures Valid() && View() == Next(old(View()), Call.Create)
      ensures var i := FirstVacant(old(View()));
        if i == NR_PIPE then r == -1
        else r == 0 && IsReader(rd) && IsWriter(wr) && Handle(rd) == i == Handle(wr) && fresh(bq[i].p)
    {
      hide Window, ByteQueue.Buffered, FirstVacant;
      ghost var m := View();
      var i := FindFree();
      if i == NR_PIPE { return -1, 0, 0; }
      bq[i].Open();
      assert View() == m[i := Slot(true, true, [])];
      return 0, 2 * i + MIN_PIPE_NO, 2 * i + MIN_PIPE_NO + 1;
    }

    /** The search loop (lines 82-85). */
    method FindFree() returns (i: nat)
      requires Valid()
      ensures i == FirstVacant(View())
    {
      hide Window, ByteQueue.Buffered;
      ghost var m := View();
      i := 0;
      while i < NR_PIPE
        invariant 0 <= i <= NR_PIPE && forall k | 0 <= k < i :: !IsVacant(m[k])
      {
        assert m[i] == bq[i].View();
        if bq[i].Free() { break; }
        i := i + 1;
      }
    }

    /** eeos_pipe_read. */
    method Read(fd: int, buf: array?<byte>, count: int) returns (n: nat)
      requires Valid() && (buf != null ==> count <= buf.Length && buf !in Rings())
      modifies Behind(fd), if buf == null then {} else {buf}
      ensures var c := Call.Read(fd, if buf == null then 0 else count);
        && Valid() && View() == Next(old(View()), c)
        && n == |Delivered(old(View()), c)|
        && (buf != null ==> n <= buf.Length && buf[..n] == Delivered(old(View()), c) && buf[n..] == old(buf[..])[n..])
    {
      hide Window, ByteQueue.Buffered;
      ghost var m := View();
      NothingDelivered(m, fd, if buf == null then 0 else count);
      if !IsReader(fd) { return 0; }
      if buf == null || count == 0 { return 0; }
      var q := bq[Handle(fd)];
      if !q.rdOpened { return 0; }
      n := q.Read(buf, count);
      assert q.View() == m[Handle(fd)].(buffered := m[Handle(fd)].buffered[n..]);
      assert View() == Next(m, Call.Read(fd, count));
    }

    /** eeos_pipe_write. */
    method Write(fd: int, buf: array?<byte>, count: int) returns (n: nat)
      requires Valid() && (buf != null ==> count <= buf.Length && buf !in Rings())
      modifies Behind(fd)
      ensures var c := Call.Write(fd, if buf == null || count < 0 then [] else buf[..count]);
        Valid() && View() == Next(old(View()), c) && n == |Accepted(old(View()), c)|
      ensures Rings() == old(Rings()) && forall d: int :: Behind(d) == old(Behind(d))
    {
      hide Window, ByteQueue.Buffered;
      ghost var m := View();
      ghost var data := if buf == null || count < 0 then [] else buf[..count];
      NothingAccepted(m, fd, data);
      if !IsWriter(fd) { return 0; }
      if buf == null || count == 0 { return 0; }
      var q := bq[Handle(fd)];
      if !q.wrOpened { return 0; }
      n := q.Write(buf, count);
      assert buf[..n] == data[..n];
      assert q.View() == m[Handle(fd)].(buffered := m[Handle(fd)].buffered + data[..n]);
      assert View() == Next(m, Call.Write(fd, data));
    }

    /** eeos_pipe_close: one end at a time. */
    method Close(fd: int) returns (r: int)
      requires Valid()
      modifies Behind(fd)
      ensures Valid() && View() == Next(old(View()), Call.Close(fd))
      ensures r == if IsOpenEnd(old(View()), fd) then 0 else -1
    {
      hide Window;
      ghost var m := View();
      if !IsValid(fd) { return -1; }
      var q := bq[Handle(fd)];
      if IsReader(fd) {
        if !q.rdOpened { return -1; }
        q.rdOpened := false;
      } else {
        if !q.wrOpened { return -1; }
        q.wrOpened := false;
      }
      if !q.rdOpened && !q.wrOpened {
        q.Release();
      }
      assert q.View() == Closed(m[Handle(fd)], fd);
      assert View() == Next(m, Call.Close(fd));
      return 0;
    }
  }
}
