/** The TFTP client of netboot/fsys_tftp.c: lock-step reception of data blocks
    into a sliding window of the file, as in sections 2 and 6 of RFC 1350. */
module Tftp {

  import opened Wrappers

  const FSYS_BUFLEN := 0x8000
  const TFTP_DEFAULTSIZE_PACKET := 512
  const TFTP_MAX_PACKET := 1432
  const MAX_TFTP_RETRIES := 20

  /** One name and value of an option acknowledgement (RFC 2347). */
  datatype OackOption = Blksize(value: int) | Tsize(value: int) | Unknown

  datatype Packet =
    | Data(number: nat, payload: seq<byte>)
    | Oack(tooLong: bool, opts: seq<OackOption>)
    | Error
    | Other

  /** What one wait for a packet yields; `sent` tells whether the request could
      be sent again. */
  datatype Reception = Aborted | Timeout(sent: bool) | Received(packet: Packet)

  // ----- The server's side --------------------------------------------------------

  /** Where the file ends once `blocks` blocks of `bs` bytes have been taken. */
  function End(file: seq<byte>, bs: nat, blocks: nat): nat {
    if blocks * bs <= |file| then blocks * bs else |file|
  }

  /** Block `n`, counted from 1, of a file; the last one is short. */
  function BlockOf(file: seq<byte>, bs: nat, n: nat): seq<byte>
    requires n >= 1 && (n - 1) * bs <= |file|
  {
    NextBlock(bs, n - 1);
    file[(n - 1) * bs..End(file, bs, n)]
  }

  lemma NextBlock(bs: nat, n: nat)
    ensures (n + 1) * bs == n * bs + bs && n * bs >= 0
  {}

  /** A packet the server may have sent at any time: any of its blocks (lost,
      repeated or out of order), or option values it may announce: a block size
      no larger than the one it uses, and the file's size, either possibly
      unreadable. Block numbers are 16 bits wide and do not wrap. */
  ghost predicate Authentic(file: seq<byte>, bs: nat, p: Packet) {
    match p
    case Data(n, payload) => 1 <= n <= 0xffff && (n - 1) * bs <= |file| && payload == BlockOf(file, bs, n)
    case Oack(tooLong, opts) => forall k | 0 <= k < |opts| :: AuthenticOption(file, bs, opts[k])
    case Error => true
    case Other => true
  }

  ghost predicate AuthenticOption(file: seq<byte>, bs: nat, o: OackOption) {
    match o
    case Blksize(v) => v <= bs
    case Tsize(v) => v == |file| || v < 0
    case Unknown => true
  }

  ghost predicate AuthenticTrace(file: seq<byte>, bs: nat, net: seq<Reception>) {
    forall k | 0 <= k < |net| && net[k].Received? :: Authentic(file, bs, net[k].packet)
  }

  lemma OptionsAuthentic(file: seq<byte>, bs: nat, tooLong: bool, opts: seq<OackOption>)
    requires Authentic(file, bs, Oack(tooLong, opts))
    ensures forall k | 0 <= k < |opts| :: AuthenticOption(file, bs, opts[k])
  {}

  lemma SubSlice(s: seq<byte>, a: nat, b: nat, i: nat, j: nat)
    requires a <= b <= |s| && i <= j <= b - a
    ensures s[a..b][i..j] == s[a + i..a + j]
  {
    forall k | 0 <= k < j - i
      ensures s[a..b][i..j][k] == s[a + i..a + j][k]
    {
      assert s[a..b][i..j][k] == s[a..b][i + k];
    }
  }

  /** Every packet is data, an option acknowledgement or an error. */
  predicate KnownKinds(net: seq<Reception>) {
    forall k | 0 <= k < |net| :: net[k] != Received(Other)
  }

  /** Acknowledgements go up one block at a time, from 0 or 1. */
  predicate Ladder(acks: seq<nat>, last: nat) {
    && (acks == [] ==> last == 0)
    && (acks != [] ==> acks[0] <= 1 && acks[|acks| - 1] == last)
    && forall k | 0 <= k && k + 1 < |acks| :: acks[k] <= acks[k + 1] <= acks[k] + 1
  }

  /** What handling one packet leads to: wait for more, or leave buf_fill. */
  datatype Outcome = Continue | Leave(ok: bool)

  // ----- What the client does, as values -------------------------------------------

  /** The variables of the client that decide what it does next: block size, last
      block stored, last block number seen, retries, end of file seen, bytes
      buffered, and file size (filemax). */
  datatype Progress = Progress(ps: int, prev: nat, block: nat, retry: nat, eof: bool, read: nat, size: int)

  /** The start of a session: what send_rrq sets. */
  function Fresh(size: int): Progress {
    Progress(TFTP_DEFAULTSIZE_PACKET, 0, 0, 0, false, 0, size)
  }

  /** The options in turn, up to the first that is refused. */
  function TakenOptions(p: Progress, opts: seq<OackOption>): (bool, Progress)
    decreases |opts|
  {
    if opts == [] then (true, p)
    else
      match opts[0]
      case Blksize(v) =>
        if v < TFTP_DEFAULTSIZE_PACKET then (false, p.(ps := v)) else TakenOptions(p.(ps := v), opts[1..])
      case Tsize(v) =>
        if v < 0 then (false, p.(size := -1)) else TakenOptions(p.(size := v), opts[1..])
      case Unknown => (false, p)
  }

  /** An acknowledgement, `p.block` being the number received and `len` the
      length of the payload: out of sequence it is turned into the last block
      stored, and only the next block is stored. */
  function Acked(abort: bool, p: Progress, len: nat): (Progress, Outcome) {
    var b := if (p.block != 0 || p.prev != 0) && p.block != p.prev + 1 then p.prev else p.block;
    if abort then (p.(block := b, eof := true), Leave(true))
    else if b == p.prev + 1 then
      (p.(block := b, prev := b, retry := 0, read := p.read + len, eof := p.eof || len < p.ps), Continue)
    else (p.(block := b), Continue)
  }

  function Handled(abort: bool, p: Progress, packet: Packet): (Progress, Outcome) {
    match packet
    case Error => (p, Leave(false))
    case Other => (p, Leave(true))
    case Data(number, payload) =>
      if |payload| > p.ps then (p, Continue) else Acked(abort, p.(block := number), |payload|)
    case Oack(tooLong, opts) =>
      if p.prev != 0 then (p, Continue)
      else if tooLong then (p, Leave(false))
      else
        var (ok, q) := TakenOptions(p, opts);
        if !ok then (q, Leave(false)) else Acked(abort, q.(block := 0), 0)
  }

  function Turned(abort: bool, p: Progress, e: Reception): (Progress, Outcome) {
    match e
    case Aborted => (p, Leave(false))
    case Timeout(sent) =>
      (p.(retry := if p.block == 0 then p.retry + 1 else p.retry),
       if p.block == 0 && p.retry < MAX_TFTP_RETRIES && sent then Continue else Leave(false))
    case Received(packet) => Handled(abort, p, packet)
  }

  /** No packet fits behind the buffered bytes, or none is to come. */
  predicate Full(p: Progress) {
    p.eof || p.read + p.ps > FSYS_BUFLEN
  }

  /** buf_fill: the progress made, the rest of the trace, and the result. */
  function Fill(abort: bool, p: Progress, net: seq<Reception>): (Progress, seq<Reception>, bool)
    decreases |net|
  {
    if Full(p) then (p, net, true)
    else if net == [] then (p, net, false)
    else
      var (q, r) := Turned(abort, p, net[0]);
      if r == Continue then Fill(abort, q, net[1..]) else (q, net[1..], r.ok)
  }

  /** The counting loop of tftp_dir. A fill that uses up nothing and still sees
      no end does not happen; the loop would go on for ever. */
  function Counted(p: Progress, net: seq<Reception>): (Progress, seq<Reception>, bool)
    decreases |net|
  {
    var (q, rest, ok) := Fill(false, p.(size := p.size + p.read, read := 0), net);
    if !ok then (q, rest, false)
    else if q.eof then (q.(size := q.size + q.read), rest, true)
    else if |rest| < |net| then Counted(q, rest)
    else (q, rest, false)
  }

  /** tftp_dir after its first request has gone out: result, size and the rest
      of the trace. */
  function DirResult(net: seq<Reception>, sentAgain: bool): (bool, int) {
    var (p1, net1, ok1) := Fill(false, Fresh(-1), net);
    if !ok1 || p1.size != -1 then (ok1, p1.size)
    else
      var (p2, net2, ok2) := Counted(p1.(size := 0), net1);
      if !ok2 || !sentAgain then (false, p2.size)
      else
        var (p3, net3, ok3) := Fill(false, Fresh(p2.size), net2);
        (ok3, p3.size)
  }

  lemma {:induction false} FillShrinks(abort: bool, p: Progress, net: seq<Reception>)
    ensures var (q, rest, ok) := Fill(abort, p, net);
      |rest| <= |net| && (ok && |rest| == |net| ==> Full(p) && q == p)
    decreases |net|
  {
    if !Full(p) && net != [] {
      FillShrinks(abort, Turned(abort, p, net[0]).0, net[1..]);
    }
  }

  /** How many events an aborting fill passes over before one ends it: timeouts
      it survives, oversized data packets and late option acknowledgements. */
  function PassedOver(p: Progress, net: seq<Reception>): (n: nat)
    ensures n <= |net|
    decreases |net|
  {
    if net == [] then 0
    else
      match net[0]
      case Timeout(sent) =>
        if p.block == 0 && p.retry < MAX_TFTP_RETRIES && sent then 1 + PassedOver(p.(retry := p.retry + 1), net[1..]) else 0
      case Received(Data(_, payload)) => if |payload| > p.ps then 1 + PassedOver(p, net[1..]) else 0
      case Received(Oack(_, _)) => if p.prev > 0 then 1 + PassedOver(p, net[1..]) else 0
      case _ => 0
  }

  /** The trace behind the event that ends an abort, if there is anything to abort. */
  function AfterAbort(p: Progress, net: seq<Reception>): seq<Reception> {
    var n := PassedOver(p, net);
    if Full(p) then net else if n == |net| then [] else net[n + 1..]
  }

  /** What an abort leaves of any trace. */
  lemma {:induction false} AbortLeaves(p: Progress, net: seq<Reception>)
    ensures Fill(true, p, net).1 == AfterAbort(p, net)
    decreases |net|
  {
    if !Full(p) && net != [] {
      var n := PassedOver(p, net);
      if n > 0 {
        var (q, r) := Turned(true, p, net[0]);
        AbortLeaves(q, net[1..]);
        assert n == 1 + PassedOver(q, net[1..]);
        if n < |net| {
          assert net[1..][n..] == net[n + 1..];
        }
      }
    }
  }

  // ----- A server that answers ---------------------------------------------------------

  /** Options the client accepts, and that leave it with the server's block size. */
  predicate Agreed(bs: nat, opts: seq<OackOption>) {
    forall k | 0 <= k < |opts| :: opts[k] == Blksize(bs) || (opts[k].Tsize? && opts[k].value >= 0)
  }

  /** The trace brings the blocks from `next` to `last` in order, however many
      repeated or reordered data packets and late option acknowledgements stand
      between them; `ps` is the client's block size, and an option acknowledgement
      that changes it comes before the first block. */
  predicate Supplies(bs: nat, ps: int, net: seq<Reception>, next: nat, last: nat)
    decreases |net|
  {
    next > last
    || (net != [] && net[0].Received? &&
        match net[0].packet
        case Data(n, _) => ps == bs && Supplies(bs, ps, net[1..], if n == next then next + 1 else next, last)
        case Oack(tooLong, opts) =>
          if next > 1 then Supplies(bs, ps, net[1..], next, last)
          else
            && !tooLong && Agreed(bs, opts)
            && Supplies(bs, if Blksize(bs) in opts then bs else ps, net[1..], next, last)
        case Error => false
        case Other => false)
  }

  /** The file has `last` blocks, and those the client lacks are on their way. */
  ghost predicate Served(file: seq<byte>, bs: nat, p: Progress, net: seq<Reception>, last: nat) {
    && last >= 1 && (last - 1) * bs <= |file| < last * bs && last <= 0xffff
    && p.prev <= last && p.eof == (p.prev == last)
    && Supplies(bs, p.ps, net, p.prev + 1, last)
  }

  predicate Tells(opts: seq<OackOption>) {
    exists k :: 0 <= k < |opts| && opts[k].Tsize?
  }

  lemma {:induction false} AgreedOptions(bs: nat, p: Progress, opts: seq<OackOption>)
    requires Agreed(bs, opts) && bs >= TFTP_DEFAULTSIZE_PACKET
    ensures var (ok, q) := TakenOptions(p, opts);
      && ok && q == p.(ps := if Blksize(bs) in opts then bs else p.ps, size := q.size)
      && (if Tells(opts) then q.size >= 0 else q.size == p.size)
    decreases |opts|
  {
    if opts != [] {
      assert forall k | 0 <= k < |opts| - 1 :: opts[1..][k] == opts[k + 1];
      assert opts == [opts[0]] + opts[1..];
      assert Tells(opts) <==> opts[0].Tsize? || Tells(opts[1..]) by {
        if Tells(opts) {
          var k :| 0 <= k < |opts| && opts[k].Tsize?;
          assert k > 0 ==> opts[1..][k - 1].Tsize?;
        }
        if Tells(opts[1..]) {
          var k :| 0 <= k < |opts[1..]| && opts[1..][k].Tsize?;
          assert opts[k + 1].Tsize?;
        }
      }
      match opts[0]
      case Blksize(v) => AgreedOptions(bs, p.(ps := v), opts[1..]);
      case Tsize(v) => AgreedOptions(bs, p.(size := v), opts[1..]);
    }
  }

  /** No block is longer than the block size, and exactly the last is shorter. */
  lemma BlockLength(file: seq<byte>, bs: nat, n: nat, last: nat)
    requires n >= 1 && (n - 1) * bs <= |file| && last >= 1 && (last - 1) * bs <= |file| < last * bs
    ensures n <= last && |BlockOf(file, bs, n)| <= bs && (|BlockOf(file, bs, n)| < bs <==> n == last)
  {
    NextBlock(bs, n - 1);
    Cancel(n - 1, last, bs);
    if n < last {
      Scale(n, last - 1, bs);
      assert End(file, bs, n) == n * bs;
    } else {
      assert End(file, bs, n) == |file|;
    }
  }

  lemma Scale(a: nat, b: nat, c: nat)
    requires a <= b
    ensures a * c <= b * c
  {}

  lemma Cancel(a: nat, b: nat, c: nat)
    requires a * c < b * c
    ensures a < b
  {}

  /** What is left of the trace when the blocks up to `last` have come. */
  function Rest(net: seq<Reception>, next: nat, last: nat): seq<Reception>
    decreases |net|
  {
    if next > last || net == [] then net
    else
      match net[0]
      case Received(Data(n, _)) => Rest(net[1..], if n == next then next + 1 else next, last)
      case _ => Rest(net[1..], next, last)
  }

  /** One packet of such a trace is taken, and the trace goes on supplying. */
  lemma ServedStep(file: seq<byte>, bs: nat, p: Progress, net: seq<Reception>, last: nat)
    requires Served(file, bs, p, net, last) && AuthenticTrace(file, bs, net) && bs >= TFTP_DEFAULTSIZE_PACKET && !p.eof
    ensures net != []
    ensures var (q, r) := Turned(false, p, net[0]);
      && r == Continue && Served(file, bs, q, net[1..], last)
      && Rest(net[1..], q.prev + 1, last) == Rest(net, p.prev + 1, last)
      && (q.prev == p.prev ==> q.read == p.read) && p.prev <= q.prev && (p.ps <= bs ==> q.ps <= bs)
  {
    hide AuthenticTrace, Authentic, BlockOf;
    assert net != [] && net[0].Received?;
    AuthenticHead(file, bs, net);
    match net[0].packet
    case Data(n, payload) => ServedData(file, bs, p, net, last);
    case Oack(tooLong, opts) =>
      if p.prev == 0 {
        AgreedOptions(bs, p, opts);
      }
      hide TakenOptions;
  }

  lemma AuthenticHead(file: seq<byte>, bs: nat, net: seq<Reception>)
    requires AuthenticTrace(file, bs, net) && net != [] && net[0].Received?
    ensures Authentic(file, bs, net[0].packet)
  {}

  lemma ServedData(file: seq<byte>, bs: nat, p: Progress, net: seq<Reception>, last: nat)
    requires Served(file, bs, p, net, last) && bs >= TFTP_DEFAULTSIZE_PACKET && !p.eof
    requires net != [] && net[0].Received? && net[0].packet.Data? && Authentic(file, bs, net[0].packet)
    ensures var (q, r) := Turned(false, p, net[0]);
      && r == Continue && Served(file, bs, q, net[1..], last)
      && Rest(net[1..], q.prev + 1, last) == Rest(net, p.prev + 1, last)
      && (q.prev == p.prev ==> q.read == p.read) && p.prev <= q.prev && q.ps == p.ps
  {
    var Data(n, payload) := net[0].packet;
    BlockLength(file, bs, n, last);
    hide BlockOf;
  }

  lemma AuthenticRest(file: seq<byte>, bs: nat, net: seq<Reception>)
    requires AuthenticTrace(file, bs, net) && net != []
    ensures AuthenticTrace(file, bs, net[1..])
  {
    assert forall k | 0 <= k < |net[1..]| :: net[1..][k] == net[k + 1];
  }

  /** How much is buffered, and the known size, play no part in that. */
  lemma ServedApart(file: seq<byte>, bs: nat, p: Progress, q: Progress, net: seq<Reception>, last: nat)
    requires q == p.(read := q.read, size := q.size)
    ensures Served(file, bs, p, net, last) == Served(file, bs, q, net, last)
  {}

  /** buf_fill succeeds on such a trace, and fills the buffer or reaches the end. */
  lemma {:induction false} ServedFill(file: seq<byte>, bs: nat, p: Progress, net: seq<Reception>, last: nat)
    requires Served(file, bs, p, net, last) && AuthenticTrace(file, bs, net) && bs >= TFTP_DEFAULTSIZE_PACKET
    ensures var (q, rest, ok) := Fill(false, p, net);
      && ok && Full(q) && Served(file, bs, q, rest, last)
      && Rest(rest, q.prev + 1, last) == Rest(net, p.prev + 1, last)
      && (q.prev == p.prev ==> q.read == p.read) && p.prev <= q.prev && (p.ps <= bs ==> q.ps <= bs)
    decreases |net|
  {
    if !Full(p) {
      ServedStep(file, bs, p, net, last);
      AuthenticRest(file, bs, net);
      hide Served, Turned, Rest;
      ServedFill(file, bs, Turned(false, p, net[0]).0, net[1..], last);
    }
  }

  /** The plainest such trace: the missing blocks, one after the other. */
  lemma {:induction false} InOrderSupplies(bs: nat, net: seq<Reception>, next: nat, last: nat)
    requires |net| + next > last && next >= 1
    requires forall k | 0 <= k && next + k <= last :: net[k].Received? && net[k].packet.Data? && net[k].packet.number == next + k
    ensures Supplies(bs, bs, net, next, last)
    decreases |net|
  {
    if next <= last {
      assert net[0].Received?;
      assert forall k | 0 <= k && next + 1 + k <= last :: net[1..][k] == net[k + 1] && net[k + 1].Received?;
      InOrderSupplies(bs, net[1..], next + 1, last);
    }
  }

  // ----- What single events do to a fill ---------------------------------------------------

  /** Options are taken exactly when each is a block size of at least 512 or a
      size that could be read; the last of each kind counts. */
  lemma {:induction false} OptionsAccepted(p: Progress, opts: seq<OackOption>)
    ensures var (ok, q) := TakenOptions(p, opts);
      && (ok <==> forall k | 0 <= k < |opts| :: AcceptableOption(opts[k]))
      && (ok && opts != [] && opts[|opts| - 1].Blksize? ==> q.ps == opts[|opts| - 1].value)
      && (ok && opts != [] && opts[|opts| - 1].Tsize? ==> q.size == opts[|opts| - 1].value)
      && ((forall k | 0 <= k < |opts| :: !opts[k].Blksize?) ==> q.ps == p.ps)
      && (ok && (forall k | 0 <= k < |opts| :: !opts[k].Tsize?) ==> q.size == p.size)
    decreases |opts|
  {
    if opts != [] {
      assert forall k | 0 <= k < |opts| - 1 :: opts[1..][k] == opts[k + 1];
      assert forall k | 0 < k < |opts| :: opts[k] == opts[1..][k - 1];
      match opts[0]
      case Blksize(v) => OptionsAccepted(p.(ps := v), opts[1..]);
      case Tsize(v) => OptionsAccepted(p.(size := v), opts[1..]);
      case Unknown =>
    }
  }

  predicate AcceptableOption(o: OackOption) {
    (o.Blksize? && o.value >= 512) || (o.Tsize? && o.value >= 0)
  }

  /** The buffer takes 64 blocks of 512 bytes, or 22 of 1432. */
  lemma BufferRoom(p: Progress, blocks: nat)
    requires !p.eof && (p.ps == 512 || p.ps == 1432) && p.read == blocks * p.ps
    ensures Full(p) <==> blocks >= if p.ps == 512 then 64 else 22
  {}

  /** The events that end a fill at once: the user's abort, an error packet, and,
      before the first block, an option acknowledgement that is too long or holds
      an unacceptable option end it with failure; an unknown packet with success. */
  lemma FillEnds(p: Progress, net: seq<Reception>)
    requires !Full(p) && net != []
    ensures net[0].Aborted? || net[0] == Received(Error) ==> Fill(false, p, net) == (p, net[1..], false)
    ensures net[0] == Received(Other) ==> Fill(false, p, net) == (p, net[1..], true)
    ensures net[0].Received? && net[0].packet.Oack? && p.prev == 0
      && (net[0].packet.tooLong || exists k :: 0 <= k < |net[0].packet.opts| && !AcceptableOption(net[0].packet.opts[k]))
      ==> !Fill(false, p, net).2 && Fill(false, p, net).1 == net[1..] && Fill(false, p, net).0.read == p.read
  {
    if net[0].Received? && net[0].packet.Oack? {
      OptionsAccepted(p, net[0].packet.opts);
      OptionsAlike(p, p, net[0].packet.opts);
    }
    hide TakenOptions;
  }

  /** The events a fill passes over: data longer than the block size, option
      acknowledgements behind the first block, and data out of sequence. */
  lemma FillIgnores(p: Progress, net: seq<Reception>)
    requires !Full(p) && net != [] && p.block == p.prev && net[0].Received?
    ensures var e := net[0].packet;
      (e.Data? && e.number > 0 && (|e.payload| > p.ps || e.number != p.prev + 1)) || (e.Oack? && p.prev > 0)
      ==> Fill(false, p, net) == Fill(false, p, net[1..])
  {
    hide TakenOptions;
  }

  /** Before anything has come, exactly 20 timeouts are survived, if the request
      can be sent again each time; once a block is stored, none is. */
  lemma {:induction false} TimeoutsSurvived(p: Progress, n: nat, rest: seq<Reception>)
    requires !Full(p) && p.block == 0
    ensures p.retry + n <= 20 ==>
      Fill(false, p, seq(n, _ => Timeout(true)) + rest) == Fill(false, p.(retry := p.retry + n), rest)
    ensures p.retry <= 20 < p.retry + n ==> !Fill(false, p, seq(n, _ => Timeout(true)) + rest).2
    decreases n
  {
    var net := seq(n, _ => Timeout(true)) + rest;
    if n == 0 {
      assert net == rest;
    } else {
      assert net[1..] == seq(n - 1, _ => Timeout(true)) + rest && net[0] == Timeout(true);
      if p.retry < 20 {
        TimeoutsSurvived(p.(retry := p.retry + 1), n - 1, rest);
      }
    }
  }

  lemma TimeoutsFatal(p: Progress, sent: bool, rest: seq<Reception>)
    requires !Full(p) && (p.block > 0 || !sent)
    ensures !Fill(false, p, [Timeout(sent)] + rest).2
  {}

  // ----- The size that tftp_dir finds --------------------------------------------------

  /** The fill hears of the file's size. */
  predicate Announces(p: Progress, net: seq<Reception>) {
    Fill(false, p.(size := -1), net).0.size != -1
  }

  /** The counting loop hears of the file's size. */
  predicate AnnouncedWhileCounting(p: Progress, net: seq<Reception>)
    decreases |net|
  {
    var (q, rest, ok) := Fill(false, p.(size := -1, read := 0), net);
    q.size != -1 || (ok && !q.eof && |rest| < |net| && AnnouncedWhileCounting(q, rest))
  }

  lemma AnnouncedApart(p: Progress, q: Progress, net: seq<Reception>)
    requires q == p.(size := q.size, read := q.read)
    ensures AnnouncedWhileCounting(p, net) == AnnouncedWhileCounting(q, net)
  {
    assert p.(size := -1, read := 0) == q.(size := -1, read := 0);
  }

  /** The size comes too late: the first fill ends without one, it is announced
      while the file is counted, and the last fill does not hear it again. */
  predicate LateSize(net: seq<Reception>) {
    var (p1, net1, ok1) := Fill(false, Fresh(-1), net);
    var (p2, net2, ok2) := Counted(p1.(size := 0), net1);
    p1.size == -1 && AnnouncedWhileCounting(p1, net1) && !Announces(Fresh(-1), net2)
  }

  /** The known size plays no part in what the client does, and an accepted
      announcement replaces it. */
  lemma {:induction false} OptionsApart(p: Progress, m: Progress, opts: seq<OackOption>)
    requires m == p.(size := m.size) && (m.size == -1 || m.size == p.size) && m.size >= -1
    ensures var (ok, q) := TakenOptions(p, opts);
      var (mok, mq) := TakenOptions(m, opts);
      && ok == mok && mq == q.(size := mq.size) && mq.size >= -1
      && (ok ==> (m.size != -1 ==> mq.size != -1) && q.size == if mq.size == -1 then p.size else mq.size)
    decreases |opts|
  {
    if opts != [] {
      match opts[0]
      case Blksize(v) => if v >= TFTP_DEFAULTSIZE_PACKET { OptionsApart(p.(ps := v), m.(ps := v), opts[1..]); }
      case Tsize(v) => if v >= 0 { OptionsApart(p.(size := v), m.(size := v), opts[1..]); }
      case Unknown =>
    }
  }

  lemma {:induction false} SizeApart(p: Progress, m: Progress, net: seq<Reception>)
    requires m == p.(size := m.size) && (m.size == -1 || m.size == p.size) && m.size >= -1
    ensures var (q, rest, ok) := Fill(false, p, net);
      var (mq, mrest, mok) := Fill(false, m, net);
      && rest == mrest && ok == mok && mq == q.(size := mq.size)
      && (ok ==> (m.size != -1 ==> mq.size != -1) && q.size == if mq.size == -1 then p.size else mq.size)
    decreases |net|
  {
    if !Full(p) && net != [] {
      if net[0].Received? && net[0].packet.Oack? {
        OptionsApart(p, m, net[0].packet.opts);
      }
      hide TakenOptions;
      var (q, r) := Turned(false, p, net[0]);
      var (mq, mr) := Turned(false, m, net[0]);
      assert r == mr && mq == q.(size := mq.size);
      if r == Continue {
        SizeApart(q, mq, net[1..]);
      }
    }
  }

  lemma {:induction false} OptionsSize(file: seq<byte>, bs: nat, p: Progress, opts: seq<OackOption>)
    requires forall k | 0 <= k < |opts| :: AuthenticOption(file, bs, opts[k])
    ensures var (ok, q) := TakenOptions(p, opts);
      (ok ==> q.size == p.size || q.size == |file|) && q == p.(ps := q.ps, size := q.size)
    decreases |opts|
  {
    if opts != [] {
      assert AuthenticOption(file, bs, opts[0]);
      assert forall k | 0 <= k < |opts| - 1 :: opts[1..][k] == opts[k + 1];
      match opts[0]
      case Blksize(v) => OptionsSize(file, bs, p.(ps := v), opts[1..]);
      case Tsize(v) => OptionsSize(file, bs, p.(size := v), opts[1..]);
      case Unknown =>
    }
  }

  /** Only the file's own size is ever announced, and only before the first block. */
  lemma {:induction false} FillSize(file: seq<byte>, bs: nat, p: Progress, net: seq<Reception>)
    requires AuthenticTrace(file, bs, net)
    ensures var (q, rest, ok) := Fill(false, p, net);
      && (ok ==> q.size == p.size || q.size == |file|)
      && p.prev <= q.prev && (p.prev > 0 ==> q.size == p.size)
    decreases |net|
  {
    if !Full(p) && net != [] {
      AuthenticRest(file, bs, net);
      if net[0].Received? {
        assert Authentic(file, bs, net[0].packet);
        if net[0].packet.Oack? {
          OptionsSize(file, bs, p, net[0].packet.opts);
        }
      }
      hide TakenOptions;
      var (q, r) := Turned(false, p, net[0]);
      assert p.prev <= q.prev && (p.prev > 0 ==> q.size == p.size);
      if r == Continue {
        FillSize(file, bs, q, net[1..]);
      }
    }
  }

  /** One turn of the counting loop, as values: what it does to the count, and
      whether a size was announced in it. */
  lemma CountStep(file: seq<byte>, bs: nat, p: Progress, net: seq<Reception>)
    requires AuthenticTrace(file, bs, net)
    ensures var (q, rest, ok) := Fill(false, p.(size := p.size + p.read, read := 0), net);
      var m := Fill(false, p.(size := -1, read := 0), net).0;
      && (AnnouncedWhileCounting(p, net) <==>
            m.size != -1 || (ok && !q.eof && |rest| < |net| && AnnouncedWhileCounting(q, rest)))
      && (ok ==> q.size == if m.size == -1 then p.size + p.read else |file|)
      && (m.size != -1 && ok ==> p.prev == 0)
      && (ok && |rest| >= |net| && !q.eof ==> p.ps > FSYS_BUFLEN)
      && |rest| <= |net|
  {
    var start, marked := p.(size := p.size + p.read, read := 0), p.(size := -1, read := 0);
    SizeApart(start, marked, net);
    FillSize(file, bs, marked, net);
    FillShrinks(false, start, net);
    AnnouncedApart(Fill(false, marked, net).0, Fill(false, start, net).0, Fill(false, start, net).1);
    hide Fill;
  }

  /** A fill that meets no unknown packet ends with the buffer full, which it is
      not before the first block. */
  lemma {:induction false} KnownFill(file: seq<byte>, bs: nat, p: Progress, net: seq<Reception>)
    requires AuthenticTrace(file, bs, net) && KnownKinds(net) && p.ps <= bs
    ensures var (q, rest, ok) := Fill(false, p, net);
      (ok ==> Full(q)) && q.ps <= bs && (q.prev == 0 ==> q.read == p.read && q.eof == p.eof) && p.prev <= q.prev
    decreases |net|
  {
    if !Full(p) && net != [] {
      AuthenticRest(file, bs, net);
      assert net[0] != Received(Other);
      assert forall k | 0 <= k < |net| - 1 :: net[1..][k] == net[k + 1];
      KnownTurn(file, bs, p, net[0]);
      hide Turned;
      KnownFill(file, bs, Turned(false, p, net[0]).0, net[1..]);
    }
  }

  lemma KnownTurn(file: seq<byte>, bs: nat, p: Progress, e: Reception)
    requires e.Received? ==> Authentic(file, bs, e.packet)
    requires e != Received(Other) && p.ps <= bs
    ensures var (q, r) := Turned(false, p, e);
      && r != Leave(true) && q.ps <= bs && (q.prev == 0 ==> q.read == p.read && q.eof == p.eof) && p.prev <= q.prev
  {
    if e.Received? && e.packet.Oack? {
      OptionsBlock(file, bs, p, e.packet.opts);
    }
    hide TakenOptions;
  }

  lemma {:induction false} OptionsBlock(file: seq<byte>, bs: nat, p: Progress, opts: seq<OackOption>)
    requires (forall k | 0 <= k < |opts| :: AuthenticOption(file, bs, opts[k])) && p.ps <= bs
    ensures var q := TakenOptions(p, opts).1; q == p.(ps := q.ps, size := q.size) && q.ps <= bs
    decreases |opts|
  {
    if opts != [] {
      assert AuthenticOption(file, bs, opts[0]);
      assert forall k | 0 <= k < |opts| - 1 :: opts[1..][k] == opts[k + 1];
      match opts[0]
      case Blksize(v) => OptionsBlock(file, bs, p.(ps := v), opts[1..]);
      case Tsize(v) => OptionsBlock(file, bs, p.(size := v), opts[1..]);
      case Unknown =>
    }
  }

  /** Without unknown packets the size never comes too late. */
  lemma KnownKindsAreInTime(file: seq<byte>, bs: nat, net: seq<Reception>)
    requires AuthenticTrace(file, bs, net) && KnownKinds(net) && Fill(false, Fresh(-1), net).2
    requires TFTP_DEFAULTSIZE_PACKET <= bs <= TFTP_MAX_PACKET
    ensures !LateSize(net)
  {
    var (p1, net1, ok1) := Fill(false, Fresh(-1), net);
    KnownFill(file, bs, Fresh(-1), net);
    AuthenticAfter(file, bs, Fresh(-1), net);
    hide Fill, AnnouncedWhileCounting, Counted;
    assert p1.prev > 0;
    AnnouncedEarly(file, bs, p1, net1);
  }

  /** The fill after the second opening: a size announced now still counts. */
  lemma LastFill(file: seq<byte>, bs: nat, size: int, net: seq<Reception>)
    requires AuthenticTrace(file, bs, net)
    ensures var (q, rest, ok) := Fill(false, Fresh(size), net);
      ok ==> q.size == if Announces(Fresh(-1), net) then |file| else size
  {
    SizeApart(Fresh(size), Fresh(-1), net);
    FillSize(file, bs, Fresh(-1), net);
    hide Fill;
  }

  lemma {:induction false} AuthenticAfter(file: seq<byte>, bs: nat, p: Progress, net: seq<Reception>)
    requires AuthenticTrace(file, bs, net)
    ensures AuthenticTrace(file, bs, Fill(false, p, net).1)
    decreases |net|
  {
    if !Full(p) && net != [] {
      AuthenticRest(file, bs, net);
      hide Turned;
      AuthenticAfter(file, bs, Turned(false, p, net[0]).0, net[1..]);
    }
  }

  lemma {:induction false} AnnouncedEarly(file: seq<byte>, bs: nat, p: Progress, net: seq<Reception>)
    requires AuthenticTrace(file, bs, net) && p.prev > 0
    ensures !AnnouncedWhileCounting(p, net)
    decreases |net|
  {
    var marked := p.(size := -1, read := 0);
    FillSize(file, bs, marked, net);
    AuthenticAfter(file, bs, marked, net);
    var (q, rest, ok) := Fill(false, marked, net);
    hide Fill;
    if |rest| < |net| {
      AnnouncedEarly(file, bs, q, rest);
    }
  }

  // ----- When tftp_dir succeeds ------------------------------------------------------------

  /** The size is announced before the first block. */
  predicate Told(net: seq<Reception>)
    decreases |net|
  {
    net != [] && net[0].Received? &&
    match net[0].packet
    case Oack(_, opts) => Tells(opts) || Told(net[1..])
    case Data(n, _) => n != 1 && Told(net[1..])
    case Error => false
    case Other => false
  }

  lemma {:induction false} ToldFill(file: seq<byte>, bs: nat, p: Progress, net: seq<Reception>, last: nat)
    requires Served(file, bs, p, net, last) && AuthenticTrace(file, bs, net)
    requires TFTP_DEFAULTSIZE_PACKET <= bs <= TFTP_MAX_PACKET && p.ps <= bs
    requires p.prev == p.read == 0 && p.size == -1
    ensures Fill(false, p, net).0.size != -1 <==> Told(net)
    decreases |net|
  {
    ServedStep(file, bs, p, net, last);
    AuthenticRest(file, bs, net);
    assert Authentic(file, bs, net[0].packet);
    if net[0].packet.Oack? {
      AgreedOptions(bs, p, net[0].packet.opts);
    }
    var q := Turned(false, p, net[0]).0;
    ServedFill(file, bs, q, net[1..], last);
    hide Served, TakenOptions, Rest;
    if q.prev > 0 {
      FillSize(file, bs, q, net[1..]);
    } else if q.size != -1 {
      SizeApart(q, q, net[1..]);
    } else {
      ToldFill(file, bs, q, net[1..], last);
    }
  }

  /** Counting goes through, and uses up what brings the blocks. */
  lemma {:induction false} ServedCount(file: seq<byte>, bs: nat, p: Progress, net: seq<Reception>, last: nat)
    requires Served(file, bs, p, net, last) && AuthenticTrace(file, bs, net)
    requires TFTP_DEFAULTSIZE_PACKET <= bs <= TFTP_MAX_PACKET && p.ps <= bs
    ensures var (q, rest, ok) := Counted(p, net); ok && rest == Rest(net, p.prev + 1, last)
    decreases |net|
  {
    var start := p.(size := p.size + p.read, read := 0);
    ServedApart(file, bs, p, start, net, last);
    ServedFill(file, bs, start, net, last);
    FillShrinks(false, start, net);
    AuthenticAfter(file, bs, start, net);
    var (q, rest, ok) := Fill(false, start, net);
    hide Fill;
    if !q.eof {
      ServedCount(file, bs, q, rest, last);
    } else {
      assert q.prev == last;
    }
  }

  lemma {:induction false} AuthenticLeft(file: seq<byte>, bs: nat, net: seq<Reception>, next: nat, last: nat)
    requires AuthenticTrace(file, bs, net)
    ensures AuthenticTrace(file, bs, Rest(net, next, last))
    decreases |net|
  {
    if next <= last && net != [] {
      AuthenticRest(file, bs, net);
      hide AuthenticTrace;
      match net[0]
      case Received(Data(n, _)) => AuthenticLeft(file, bs, net[1..], if n == next then next + 1 else next, last);
      case _ => AuthenticLeft(file, bs, net[1..], next, last);
    }
  }

  /** The trace serves a session in which the size is announced, or two sessions
      one behind the other. */
  ghost predicate ServedDir(file: seq<byte>, bs: nat, net: seq<Reception>, sentAgain: bool, last: nat) {
    && Served(file, bs, Fresh(-1), net, last)
    && (Told(net) || (sentAgain && Served(file, bs, Fresh(-1), Rest(net, 1, last), last)))
  }

  /** On such traces tftp_dir succeeds, and no size comes too late. */
  lemma DirSucceeds(file: seq<byte>, bs: nat, net: seq<Reception>, sentAgain: bool, last: nat)
    requires AuthenticTrace(file, bs, net) && TFTP_DEFAULTSIZE_PACKET <= bs <= TFTP_MAX_PACKET
    requires ServedDir(file, bs, net, sentAgain, last)
    ensures DirResult(net, sentAgain).0 && !LateSize(net)
  {
    var p := Fresh(-1);
    ServedFill(file, bs, p, net, last);
    ToldFill(file, bs, p, net, last);
    var (p1, net1, ok1) := Fill(false, p, net);
    if !Told(net) {
      AuthenticAfter(file, bs, p, net);
      assert p1.prev > 0 by { hide Supplies, Fill; }
      AnnouncedEarly(file, bs, p1, net1);
      ServedApart(file, bs, p1, p1.(size := 0), net1, last);
      ServedCount(file, bs, p1.(size := 0), net1, last);
      var p2 := Counted(p1.(size := 0), net1).0;
      AuthenticLeft(file, bs, net, 1, last);
      ServedApart(file, bs, p, Fresh(p2.size), Rest(net, 1, last), last);
      ServedFill(file, bs, Fresh(p2.size), Rest(net, 1, last), last);
    }
    hide Fill, Counted, Served, Told, AnnouncedWhileCounting;
  }

  // ----- A late size, on the packets themselves --------------------------------------------

  /** When the first accepted size of a session comes: before the first block and
      before any unknown packet, or before the first block only, or not. */
  datatype Hearing = Never | AtOnce | Late

  function WhenHeard(ps: int, net: seq<Reception>): Hearing
    decreases |net|
  {
    if net == [] then Never
    else
      match net[0]
      case Aborted => Never
      case Timeout(_) => WhenHeard(ps, net[1..])
      case Received(Error) => Never
      case Received(Other) => if WhenHeard(ps, net[1..]) == Never then Never else Late
      case Received(Data(n, payload)) => if n == 1 && |payload| <= ps then Never else WhenHeard(ps, net[1..])
      case Received(Oack(tooLong, opts)) =>
        var (ok, q) := TakenOptions(Fresh(-1).(ps := ps), opts);
        if tooLong || !ok then Never else if q.size != -1 then AtOnce else WhenHeard(q.ps, net[1..])
  }

  /** The trace behind the short last block, with `prev` blocks stored so far. */
  function AfterFile(ps: int, prev: nat, net: seq<Reception>): seq<Reception>
    decreases |net|
  {
    if net == [] then []
    else
      match net[0]
      case Received(Data(n, payload)) =>
        if n != prev + 1 || |payload| > ps then AfterFile(ps, prev, net[1..])
        else if |payload| < ps then net[1..]
        else AfterFile(ps, prev + 1, net[1..])
      case Received(Oack(_, opts)) =>
        AfterFile(if prev == 0 then TakenOptions(Fresh(-1).(ps := ps), opts).1.ps else ps, prev, net[1..])
      case _ => AfterFile(ps, prev, net[1..])
  }

  /** Which options are taken depends on nothing but the block size. */
  lemma {:induction false} OptionsAlike(p: Progress, q: Progress, opts: seq<OackOption>)
    requires p.ps == q.ps
    ensures var (ok, r) := TakenOptions(p, opts);
      var (mok, m) := TakenOptions(q, opts);
      && ok == mok && r == p.(ps := r.ps, size := r.size) && r.ps == m.ps && (p.size == q.size ==> r.size == m.size)
    decreases |opts|
  {
    if opts != [] {
      match opts[0]
      case Blksize(v) => if v >= TFTP_DEFAULTSIZE_PACKET { OptionsAlike(p.(ps := v), q.(ps := v), opts[1..]); }
      case Tsize(v) => if v >= 0 { OptionsAlike(p.(size := v), q.(size := v), opts[1..]); }
      case Unknown =>
    }
  }

  /** The client before the first block, with no size known. */
  predicate Unopened(bs: nat, p: Progress) {
    p.prev == p.block == p.read == 0 && !p.eof && p.size == -1 && p.ps <= bs <= TFTP_MAX_PACKET
  }

  /** One event before the first block. */
  lemma HeardStep(file: seq<byte>, bs: nat, p: Progress, e: Reception, rest: seq<Reception>)
    requires Unopened(bs, p) && (e.Received? ==> Authentic(file, bs, e.packet))
    ensures var (q, r) := Turned(false, p, e); var heard := WhenHeard(p.ps, [e] + rest);
      r == Continue ==>
        (if q.size != -1 then heard == AtOnce
         else if q.prev > 0 then heard == Never
         else heard == WhenHeard(q.ps, rest) && Unopened(bs, q))
    ensures Turned(false, p, e).1 == Leave(true) ==>
      Turned(false, p, e).0 == p && WhenHeard(p.ps, [e] + rest) == if WhenHeard(p.ps, rest) == Never then Never else Late
  {
    assert ([e] + rest)[1..] == rest;
    if e.Received? && e.packet.Oack? {
      OptionsAlike(p, Fresh(-1).(ps := p.ps), e.packet.opts);
      OptionsBlock(file, bs, p, e.packet.opts);
    }
    hide TakenOptions;
  }

  /** A fill before the first block hears a size if and only if one comes at
      once; if it ends before the first block, what comes later decides. */
  lemma {:induction false} FillHeard(file: seq<byte>, bs: nat, p: Progress, net: seq<Reception>)
    requires Unopened(bs, p) && AuthenticTrace(file, bs, net)
    ensures var (q, rest, ok) := Fill(false, p, net); var heard := WhenHeard(p.ps, net);
      ok ==>
        (if q.size != -1 then heard == AtOnce
         else if q.prev > 0 then heard == Never
         else heard != AtOnce && (heard == Never <==> WhenHeard(q.ps, rest) == Never) && Unopened(bs, q) && |rest| < |net|)
    decreases |net|, 1
  {
    if net != [] {
      hide Turned, WhenHeard;
      assert [net[0]] + net[1..] == net;
      HeardStep(file, bs, p, net[0], net[1..]);
      AuthenticRest(file, bs, net);
      var (q, r) := Turned(false, p, net[0]);
      if r == Continue {
        FillAfterStep(file, bs, p, q, net);
      }
    }
  }

  lemma {:induction false} FillAfterStep(file: seq<byte>, bs: nat, p: Progress, q: Progress, net: seq<Reception>)
    requires net != [] && AuthenticTrace(file, bs, net[1..]) && Unopened(bs, p)
    requires Turned(false, p, net[0]) == (q, Continue)
    requires q.size == -1 && q.prev == 0 ==> Unopened(bs, q)
    ensures Fill(false, p, net) == Fill(false, q, net[1..])
    ensures var (l, rest, ok) := Fill(false, q, net[1..]); var heard := WhenHeard(q.ps, net[1..]);
      ok ==>
        (if q.size != -1 then l.size != -1
         else if q.prev > 0 then l.size == -1 && l.prev > 0
         else if l.size != -1 then heard == AtOnce
         else if l.prev > 0 then heard == Never
         else heard != AtOnce && (heard == Never <==> WhenHeard(l.ps, rest) == Never) && Unopened(bs, l) && |rest| < |net|)
    decreases |net|, 0
  {
    hide Turned, WhenHeard, AuthenticTrace;
    assert Fill(false, p, net) == Fill(false, q, net[1..]);
    if q.size != -1 {
      SizeUp(file, bs, q, net[1..]);
    } else if q.prev > 0 {
      FillSize(file, bs, q, net[1..]);
    } else {
      FillHeard(file, bs, q, net[1..]);
    }
  }

  /** A size once heard stays known. */
  lemma SizeUp(file: seq<byte>, bs: nat, p: Progress, net: seq<Reception>)
    requires AuthenticTrace(file, bs, net) && p.size != -1
    ensures Fill(false, p, net).2 ==> Fill(false, p, net).0.size != -1
  {
    FillSize(file, bs, p, net);
    hide Fill;
  }

  /** The counting loop, entered before the first block, hears a size if and only
      if one comes before that block. */
  lemma {:induction false} CountHeard(file: seq<byte>, bs: nat, p: Progress, net: seq<Reception>)
    requires Unopened(bs, p.(size := -1)) && AuthenticTrace(file, bs, net) && Counted(p, net).2
    ensures AnnouncedWhileCounting(p, net) <==> WhenHeard(p.ps, net) != Never
    decreases |net|
  {
    var m := p.(size := -1, read := 0);
    var start := p.(size := p.size + p.read, read := 0);
    CountStep(file, bs, p, net);
    SizeApart(start, m, net);
    FillHeard(file, bs, m, net);
    AuthenticAfter(file, bs, start, net);
    var (q, rest, ok) := Fill(false, start, net);
    var mq := Fill(false, m, net).0;
    assert ok && mq == q.(size := mq.size);
    hide Fill, WhenHeard, AnnouncedWhileCounting;
    if mq.size == -1 && !q.eof {
      if q.prev > 0 {
        AnnouncedEarly(file, bs, q, rest);
      } else {
        CountHeard(file, bs, q, rest);
      }
    }
  }

  lemma AfterFileStep(p: Progress, e: Reception, rest: seq<Reception>)
    requires !p.eof
    ensures var (q, r) := Turned(false, p, e);
      r != Leave(false) ==> AfterFile(p.ps, p.prev, [e] + rest) == if q.eof then rest else AfterFile(q.ps, q.prev, rest)
  {
    assert ([e] + rest)[1..] == rest;
    if e.Received? && e.packet.Oack? {
      OptionsAlike(p, Fresh(-1).(ps := p.ps), e.packet.opts);
    }
    hide TakenOptions;
  }

  lemma {:induction false} FillAfterFile(p: Progress, net: seq<Reception>)
    requires !p.eof
    ensures var (q, rest, ok) := Fill(false, p, net);
      ok ==> AfterFile(p.ps, p.prev, net) == if q.eof then rest else AfterFile(q.ps, q.prev, rest)
    decreases |net|
  {
    if !Full(p) && net != [] {
      hide Turned, AfterFile;
      assert [net[0]] + net[1..] == net;
      AfterFileStep(p, net[0], net[1..]);
      var (q, r) := Turned(false, p, net[0]);
      if r == Continue {
        if q.eof {
          assert Fill(false, q, net[1..]) == (q, net[1..], true);
        } else {
          FillAfterFile(q, net[1..]);
        }
      }
    }
  }

  lemma {:induction false} CountAfterFile(p: Progress, net: seq<Reception>)
    requires !p.eof && Counted(p, net).2
    ensures Counted(p, net).1 == AfterFile(p.ps, p.prev, net)
    decreases |net|
  {
    var start := p.(size := p.size + p.read, read := 0);
    FillAfterFile(start, net);
    var (q, rest, ok) := Fill(false, start, net);
    hide Fill, AfterFile;
    if !q.eof {
      CountAfterFile(q, rest);
    }
  }

  lemma {:induction false} AuthenticBehind(file: seq<byte>, bs: nat, ps: int, prev: nat, net: seq<Reception>)
    requires AuthenticTrace(file, bs, net)
    ensures AuthenticTrace(file, bs, AfterFile(ps, prev, net))
    decreases |net|
  {
    if net != [] {
      AuthenticRest(file, bs, net);
      hide AuthenticTrace, TakenOptions;
      match net[0]
      case Received(Data(n, payload)) => AuthenticBehind(file, bs, ps, if n == prev + 1 && |payload| <= ps then prev + 1 else prev, net[1..]);
      case Received(Oack(_, opts)) =>
        AuthenticBehind(file, bs, if prev == 0 then TakenOptions(Fresh(-1).(ps := ps), opts).1.ps else ps, prev, net[1..]);
      case _ => AuthenticBehind(file, bs, ps, prev, net[1..]);
    }
  }

  /** A size is late exactly when, of what comes before the first block, an unknown
      packet comes first and an accepted size later, and behind the last block of
      the file none comes at once. */
  lemma LateSizeOnPackets(file: seq<byte>, bs: nat, net: seq<Reception>)
    requires AuthenticTrace(file, bs, net) && TFTP_DEFAULTSIZE_PACKET <= bs <= TFTP_MAX_PACKET && DirResult(net, true).0
    ensures LateSize(net) <==>
      && WhenHeard(TFTP_DEFAULTSIZE_PACKET, net) == Late
      && WhenHeard(TFTP_DEFAULTSIZE_PACKET, AfterFile(TFTP_DEFAULTSIZE_PACKET, 0, net)) != AtOnce
  {
    var p := Fresh(-1);
    FillHeard(file, bs, p, net);
    AuthenticAfter(file, bs, p, net);
    FillAfterFile(p, net);
    var (p1, net1, ok1) := Fill(false, p, net);
    hide Fill, WhenHeard, AfterFile, AuthenticTrace, AnnouncedWhileCounting, Counted;
    if p1.size == -1 {
      if p1.prev > 0 {
        AnnouncedEarly(file, bs, p1, net1);
      } else {
        var counted := p1.(size := 0);
        CountHeard(file, bs, counted, net1);
        AnnouncedApart(p1, counted, net1);
        CountAfterFile(counted, net1);
        var (p2, net2, ok2) := Counted(counted, net1);
        AuthenticBehind(file, bs, TFTP_DEFAULTSIZE_PACKET, 0, net);
        FillHeard(file, bs, p, net2);
        SizeApart(Fresh(p2.size), p, net2);
        assert p.(size := -1) == p;
      }
    }
  }

  /** An unknown packet in front of the option acknowledgement makes tftp_dir
      count a file whose size it is told meanwhile: one byte counts as two. */
  lemma UnknownPacketDoublesSize()
    ensures var net := [Received(Other), Received(Oack(false, [Tsize(1)])), Received(Data(1, [0])), Received(Data(1, [0]))];
      AuthenticTrace([0], 512, net) && LateSize(net) && DirResult(net, true) == (true, 2)
  {
    var d, announced := Received(Data(1, [0])), Received(Oack(false, [Tsize(1)]));
    var net1 := [announced] + ([d] + [d]);
    var net := [Received(Other)] + net1;
    assert net == [Received(Other), announced, d, d] && net[1..] == net1;
    OneByteAuthentic(net);
    assert Fill(false, Fresh(-1), net) == (Fresh(-1), net1, true);
    hide Fill, LateSize, DirResult, AuthenticTrace;
    AnnouncedFill(-1, [d]);
    AnnouncedFill(0, [d]);
    assert [d] + [] == [d];
    OneByteFill(-1, []);
    OneByteFill(2, []);
    LateTrace(net, net1, [d]);
  }

  /** The steps of tftp_dir on such a trace. */
  lemma LateTrace(net: seq<Reception>, net1: seq<Reception>, net2: seq<Reception>)
    requires Fill(false, Fresh(-1), net) == (Fresh(-1), net1, true) && |net2| < |net1|
    requires Fill(false, Fresh(-1), net1) == Fill(false, Fresh(0), net1) == (Progress(512, 1, 1, 0, true, 1, 1), net2, true)
    requires Fill(false, Fresh(-1), net2) == (Progress(512, 1, 1, 0, true, 1, -1), [], true)
    requires Fill(false, Fresh(2), net2) == (Progress(512, 1, 1, 0, true, 1, 2), [], true)
    ensures LateSize(net) && DirResult(net, true) == (true, 2)
  {
    hide Fill;
    var p := Fresh(-1);
    assert p.(size := 0) == Fresh(0) && Fresh(0).(size := 0 + 0, read := 0) == Fresh(0) && p.(size := -1, read := 0) == p;
    assert Counted(Fresh(0), net1) == (Progress(512, 1, 1, 0, true, 1, 2), net2, true);
    assert AnnouncedWhileCounting(p, net1);
    assert Announces(Fresh(-1), net2) == (Fill(false, Fresh(-1), net2).0.size != -1) by { assert p.(size := -1) == p; }
  }

  lemma OneByteFill(x: int, rest: seq<Reception>)
    ensures Fill(false, Fresh(x), [Received(Data(1, [0]))] + rest) == (Progress(512, 1, 1, 0, true, 1, x), rest, true)
  {
    var net := [Received(Data(1, [0]))] + rest;
    assert net[1..] == rest && |[0 as byte]| == 1;
    assert Turned(false, Fresh(x), net[0]) == (Progress(512, 1, 1, 0, true, 1, x), Continue);
  }

  lemma AnnouncedFill(x: int, rest: seq<Reception>)
    ensures Fill(false, Fresh(x), [Received(Oack(false, [Tsize(1)]))] + ([Received(Data(1, [0]))] + rest))
      == (Progress(512, 1, 1, 0, true, 1, 1), rest, true)
  {
    var net := [Received(Oack(false, [Tsize(1)]))] + ([Received(Data(1, [0]))] + rest);
    assert net[1..] == [Received(Data(1, [0]))] + rest && [Tsize(1)][1..] == [];
    assert TakenOptions(Fresh(x), [Tsize(1)]) == TakenOptions(Fresh(1), []) == (true, Fresh(1));
    assert Turned(false, Fresh(x), net[0]) == (Fresh(1), Continue);
    OneByteFill(1, rest);
  }

  lemma OneByteAuthentic(net: seq<Reception>)
    requires forall k | 0 <= k < |net| :: net[k] in {Received(Other), Received(Oack(false, [Tsize(1)])), Received(Data(1, [0]))}
    ensures AuthenticTrace([0], 512, net)
  {
    assert [0 as byte] == BlockOf([0], 512, 1);
  }

  // ----- The client ---------------------------------------------------------------

  class Client {
    ghost const file: seq<byte>
    ghost const bs: nat
    const buf: array<byte>
    var retry: nat
    var block: nat
    var prevblock: nat
    var bcounter: nat
    var packetsize: int
    var bufEof: bool
    var bufRead: nat
    var savedFilepos: nat
    var filepos: nat
    var filemax: int
    // What the network still has in store, and the block numbers acknowledged
    // in this session.
    var net: seq<Reception>
    var acks: seq<nat>

    /** The server keeps one file, in blocks no smaller than the default size
        and no larger than the size the client asks for (RFC 2348). */
    ghost predicate Setting()
      reads this`net, this`packetsize, this`prevblock, this`bcounter
    {
      && buf.Length == FSYS_BUFLEN
      && TFTP_DEFAULTSIZE_PACKET <= bs <= TFTP_MAX_PACKET
      && AuthenticTrace(file, bs, net)
      && packetsize <= bs && prevblock == bcounter
    }

    ghost function Now(): Progress
      reads this
    {
      Progress(packetsize, prevblock, block, retry, bufEof, bufRead, filemax)
    }

    /** The reception state alone: blocks 1..prevblock have been stored and the
        last `bufRead` bytes of them are in the buffer. */
    ghost predicate Receiving()
      reads this`net, this`packetsize, this`prevblock, this`bcounter, this`block, this`acks, this`bufRead, this`bufEof, buf
    {
      Setting() && Stored() && block == prevblock && Ladder(acks, prevblock)
    }

    ghost predicate Stored()
      reads this`prevblock, this`bufRead, this`bufEof, buf
      requires buf.Length == FSYS_BUFLEN
    {
      && prevblock <= 0xffff
      && bufRead <= FSYS_BUFLEN && bufRead <= End(file, bs, prevblock)
      && buf[..bufRead] == file[End(file, bs, prevblock) - bufRead..End(file, bs, prevblock)]
      && (bufEof ==> prevblock > 0 && |file| < prevblock * bs)
    }

    /** The buffer is the window of the file that starts at savedFilepos. */
    ghost predicate Valid()
      reads this, buf
    {
      Receiving() && savedFilepos + bufRead == End(file, bs, prevblock)
    }

    constructor (ghost file: seq<byte>, ghost bs: nat, net: seq<Reception>)
      requires TFTP_DEFAULTSIZE_PACKET <= bs <= TFTP_MAX_PACKET && AuthenticTrace(file, bs, net)
      ensures Valid() && fresh(buf) && this.file == file && this.bs == bs && this.net == net && filepos == 0
    {
      this.file, this.bs, this.net := file, bs, net;
      buf := new byte[FSYS_BUFLEN];
      retry, block, prevblock, bcounter := 0, 0, 0, 0;
      packetsize, bufEof, bufRead, savedFilepos := TFTP_DEFAULTSIZE_PACKET, false, 0, 0;
      filepos, filemax, acks := 0, -1, [];
      new;
      FreshSession();
    }

    /** Where a session starts the window is empty. */
    lemma FreshSession()
      requires Setting() && prevblock == block == 0 && bufRead == savedFilepos == 0 && !bufEof && acks == []
      ensures Valid()
    {
      hide AuthenticTrace;
      assert 0 * bs == 0;
      assert buf[..0] == [] == file[0..0];
    }

    /** send_rrq: a new session; `sent` is what udp_transmit reports. */
    method SendRrq(sent: bool) returns (ok: bool)
      requires buf.Length == FSYS_BUFLEN && TFTP_DEFAULTSIZE_PACKET <= bs <= TFTP_MAX_PACKET && AuthenticTrace(file, bs, net)
      modifies this`retry, this`block, this`prevblock, this`packetsize, this`bcounter, this`bufEof, this`bufRead,
               this`savedFilepos, this`acks
      ensures Valid() && prevblock == 0 && savedFilepos == 0 && bufRead == 0 && !bufEof
      ensures Now() == Fresh(filemax) && ok == sent
    {
      hide AuthenticTrace, End, Ladder, Stored, Receiving, Valid;
      retry, block, prevblock := 0, 0, 0;
      packetsize := TFTP_DEFAULTSIZE_PACKET;
      bcounter := 0;
      bufEof, bufRead, savedFilepos := false, 0, 0;
      acks := [];
      FreshSession();
      return sent;
    }

    /** Lines 132-180: take the options over; false means that the client
        refuses them with an error packet. */
    method TakeOptions(opts: seq<OackOption>) returns (ok: bool)
      requires forall k | 0 <= k < |opts| :: AuthenticOption(file, bs, opts[k])
      requires packetsize <= bs
      modifies this`packetsize, this`filemax
      ensures packetsize <= bs
      ensures filemax == old(filemax) || filemax == |file| || (filemax == -1 && !ok)
      ensures ok ==> packetsize == old(packetsize) || TFTP_DEFAULTSIZE_PACKET <= packetsize
      ensures (ok, Now()) == TakenOptions(old(Now()), opts)
    {
      var k := 0;
      while k < |opts|
        invariant 0 <= k <= |opts| && packetsize <= bs
        invariant filemax == old(filemax) || filemax == |file|
        invariant packetsize == old(packetsize) || TFTP_DEFAULTSIZE_PACKET <= packetsize
        invariant TakenOptions(Now(), opts[k..]) == TakenOptions(old(Now()), opts)
      {
        assert AuthenticOption(file, bs, opts[k]);
        assert opts[k..][0] == opts[k] && opts[k..][1..] == opts[k + 1..];
        match opts[k] {
          case Blksize(v) =>
            packetsize := v;
            if packetsize < TFTP_DEFAULTSIZE_PACKET { return false; }
          case Tsize(v) =>
            filemax := v;
            if filemax < 0 {
              filemax := -1;
              return false;
            }
          case Unknown =>
            return false;
        }
        k := k + 1;
      }
      return true;
    }

    /** Lines 246-251: copy the payload behind the buffered bytes. */
    method Store(payload: seq<byte>)
      requires bufRead + |payload| <= buf.Length && |payload| <= packetsize
      modifies buf, this`bufRead, this`bufEof
      ensures bufRead == old(bufRead) + |payload|
      ensures buf[..bufRead] == old(buf[..bufRead]) + payload
      ensures bufEof == (old(bufEof) || |payload| < packetsize)
    {
      ghost var before := buf[..bufRead];
      forall k | 0 <= k < |payload| {
        buf[bufRead + k] := payload[k];
      }
      assert buf[..bufRead] == before;
      assert buf[bufRead..bufRead + |payload|] == payload;
      assert buf[..bufRead + |payload|] == buf[..bufRead] + buf[bufRead..bufRead + |payload|];
      bufRead := bufRead + |payload|;
      if |payload| < packetsize {
        bufEof := true;
      }
    }

    /** First file position that is still buffered. */
    ghost function Start(): int
      reads this
    {
      End(file, bs, prevblock) - bufRead
    }

    /** Lines 194-205 and 211-251: a data packet. Whatever its number, it is
        answered with the number of the last block in sequence, and only the
        next block in sequence is stored. */
    method TakeData(number: nat, payload: seq<byte>, abort: bool) returns (r: Outcome)
      requires Setting() && Authentic(file, bs, Data(number, payload))
      requires abort || (Receiving() && !bufEof && bufRead + packetsize <= FSYS_BUFLEN)
      modifies buf, this`block, this`prevblock, this`bcounter, this`retry, this`bufRead, this`bufEof, this`acks
      ensures Setting() && (!abort ==> Receiving() && Start() == old(Start()))
      ensures (Now(), r) == Handled(abort, old(Now()), Data(number, payload))
      ensures acks == old(acks) + if abort || |payload| > packetsize then [] else [prevblock]
    {
      if |payload| > packetsize { return Continue; }
      block := number;
      r := Acknowledge(abort, payload);
    }

    /** Lines 237-251: the block in sequence is stored. */
    method Accept(payload: seq<byte>)
      requires Setting() && Stored() && !bufEof && block == prevblock + 1
      requires Authentic(file, bs, Data(block, payload))
      requires |payload| <= packetsize && bufRead + packetsize <= FSYS_BUFLEN
      modifies buf, this`prevblock, this`bcounter, this`retry, this`bufRead, this`bufEof
      ensures Setting() && Stored() && Start() == old(Start()) && prevblock == block
      ensures Now() == old(Now()).(prev := block, retry := 0, read := old(bufRead) + |payload|, eof := |payload| < packetsize)
    {
      NextBlock(bs, prevblock);
      ghost var from, end, next := Start(), End(file, bs, prevblock), End(file, bs, block);
      assert payload == file[end..next];
      assert file[from..end] + payload == file[from..next];
      prevblock := block;
      retry := 0;
      bcounter := bcounter + 1;
      Store(payload);
    }

    /** Lines 211-251, common to data and option acknowledgements: `block` is
        the number just received. */
    method Acknowledge(abort: bool, payload: seq<byte>) returns (r: Outcome)
      requires Setting() && (block != 0 ==> |payload| <= packetsize)
      requires !abort ==>
        && Stored() && Ladder(acks, prevblock) && !bufEof && bufRead + packetsize <= FSYS_BUFLEN
        && ((block == 0 && payload == []) || Authentic(file, bs, Data(block, payload)))
      modifies buf, this`block, this`prevblock, this`bcounter, this`retry, this`bufRead, this`bufEof, this`acks
      ensures Setting() && (!abort ==> Receiving() && Start() == old(Start()))
      ensures (Now(), r) == Acked(abort, old(Now()), |payload|)
      ensures acks == old(acks) + if abort then [] else [prevblock]
    {
      hide End, Authentic, AuthenticTrace;
      if (block != 0 || bcounter != 0) && block != prevblock + 1 {
        block := prevblock;
      }
      if abort {
        bufEof := true;
        return Leave(true);
      }
      acks := acks + [block];
      if (block - prevblock) % 0x1_0000 != 1 { return Continue; }
      Accept(payload);
      return Continue;
    }

    /** Lines 112-188 and 211-235: an option acknowledgement counts only before
        the first block. */
    method TakeOack(tooLong: bool, opts: seq<OackOption>, abort: bool) returns (r: Outcome)
      requires Setting() && Authentic(file, bs, Oack(tooLong, opts))
      requires abort || (Receiving() && !bufEof && bufRead + packetsize <= FSYS_BUFLEN)
      modifies buf, this`block, this`prevblock, this`bcounter, this`retry, this`bufRead, this`bufEof, this`acks,
               this`packetsize, this`filemax
      ensures Setting()
      ensures !abort ==> Receiving() && Start() == old(Start())
      ensures (Now(), r) == Handled(abort, old(Now()), Oack(tooLong, opts))
      ensures filemax == old(filemax) || filemax == |file| || (filemax == -1 && r == Leave(false))
      ensures !abort && r == Continue ==> acks == old(acks) + if old(prevblock) > 0 then [] else [0]
    {
      hide End, Stored, Ladder, AuthenticTrace, Authentic, AuthenticOption;
      OptionsAuthentic(file, bs, tooLong, opts);
      if prevblock != 0 { return Continue; }
      if !abort {
        NothingBuffered();
      }
      if tooLong { return Leave(false); }
      var ok := TakeOptions(opts);
      if !ok { return Leave(false); }
      r := AckOptions(abort);
    }

    lemma NothingBuffered()
      requires Receiving() && prevblock == 0
      ensures bufRead == 0 && Start() == 0
    {}

    /** Line 187 and what follows it: the options are acknowledged like block 0. */
    method AckOptions(abort: bool) returns (r: Outcome)
      requires Setting() && prevblock == 0 && (abort || (Receiving() && !bufEof && bufRead == 0))
      modifies buf, this`block, this`prevblock, this`bcounter, this`retry, this`bufRead, this`bufEof, this`acks
      ensures Setting() && (!abort ==> Receiving() && Start() == old(Start()))
      ensures (Now(), r) == Acked(abort, old(Now()).(block := 0), 0)
      ensures !abort ==> acks == old(acks) + [0]
    {
      hide End, Stored, Ladder, AuthenticTrace, Authentic;
      block := 0;
      r := Acknowledge(abort, []);
    }

    /** Lines 103-250: one packet, as buf_fill dispatches on its opcode. */
    method HandlePacket(p: Packet, abort: bool) returns (r: Outcome)
      requires Setting() && Authentic(file, bs, p)
      requires abort || (Receiving() && !bufEof && bufRead + packetsize <= FSYS_BUFLEN)
      modifies buf, this`block, this`prevblock, this`bcounter, this`retry, this`bufRead, this`bufEof, this`acks,
               this`packetsize, this`filemax
      ensures Setting()
      ensures !abort ==> Receiving() && Start() == old(Start())
      ensures (Now(), r) == Handled(abort, old(Now()), p)
      ensures filemax == old(filemax) || filemax == |file| || (filemax == -1 && r == Leave(false))
      ensures !abort && p.Data? ==> acks == old(acks) + if |p.payload| > old(packetsize) then [] else [prevblock]
      ensures !abort && p.Oack? && r == Continue ==> acks == old(acks) + if old(prevblock) > 0 then [] else [0]
    {
      hide End, Stored, Ladder, AuthenticTrace;
      match p
      case Error =>
        return Leave(false);
      case Oack(tooLong, opts) =>
        r := TakeOack(tooLong, opts, abort);
      case Data(number, payload) =>
        r := TakeData(number, payload, abort);
      case Other =>
        return Leave(true);
    }

    /** The blocks the client lacks, of the `last` there are, are on their way. */
    ghost predicate Lockstep(last: nat)
      reads this
    {
      Served(file, bs, Now(), net, last)
    }

    /** One turn of the loop in buf_fill. Past the end of the trace the user
        gives up. */
    method ReceiveOne(abort: bool) returns (r: Outcome)
      requires Setting()
      requires abort || (Receiving() && !bufEof && bufRead + packetsize <= FSYS_BUFLEN)
      modifies buf, this`block, this`prevblock, this`bcounter, this`retry, this`bufRead, this`bufEof, this`acks,
               this`packetsize, this`filemax, this`net
      ensures Setting()
      ensures r == Leave(false) || |net| < |old(net)|
      ensures net == if old(net) == [] then [] else old(net)[1..]
      ensures (Now(), r) == if old(net) == [] then (old(Now()), Leave(false)) else Turned(abort, old(Now()), old(net)[0])
      ensures !abort ==> Receiving() && Start() == old(Start())
      ensures filemax == old(filemax) || filemax == |file| || (filemax == -1 && r == Leave(false))
    {
      hide Stored, Ladder, End;
      if net == [] { return Leave(false); }
      var event := net[0];
      net := net[1..];
      match event
      case Aborted =>
        return Leave(false);
      case Timeout(sent) =>
        var again := block == 0 && retry < MAX_TFTP_RETRIES;
        retry := if block == 0 then retry + 1 else retry;
        return if again && sent then Continue else Leave(false);
      case Received(packet) =>
        assert Authentic(file, bs, packet);
        r := HandlePacket(packet, abort);
    }

    /** buf_fill: receive until the file has ended or no packet fits any more. */
    method BufFill(abort: bool) returns (ok: bool)
      requires Setting() && (abort || Receiving())
      modifies buf, this`block, this`prevblock, this`bcounter, this`retry, this`bufRead, this`bufEof, this`acks,
               this`packetsize, this`filemax, this`net
      ensures Setting()
      ensures !abort ==> Receiving() && Start() == old(Start())
      ensures (Now(), net, ok) == Fill(abort, old(Now()), old(net))
      ensures filemax == old(filemax) || filemax == |file| || (filemax == -1 && !ok)
    {
      hide Stored, Ladder, End, AuthenticTrace, Receiving, Turned;
      while !bufEof && bufRead + packetsize <= FSYS_BUFLEN
        invariant Setting()
        invariant !abort ==> Receiving() && Start() == old(Start())
        invariant Fill(abort, Now(), net) == Fill(abort, old(Now()), old(net))
        invariant filemax == old(filemax) || filemax == |file|
        decreases |net|
      {
        var outcome := ReceiveOne(abort);
        if outcome != Continue { return outcome.ok; }
      }
      return true;
    }

    /** Any stretch of the buffered window is that stretch of the file. */
    lemma WindowSlice(from: nat, to: nat)
      requires Valid() && savedFilepos <= from <= to <= savedFilepos + bufRead
      ensures to <= |file| && to - savedFilepos <= buf.Length
      ensures buf[from - savedFilepos..to - savedFilepos] == file[from..to]
    {
      var i, j := from - savedFilepos, to - savedFilepos;
      SubSlice(buf[..], 0, bufRead, i, j);
      SubSlice(file, savedFilepos, End(file, bs, prevblock), i, j);
      assert buf[..][0..bufRead] == buf[..bufRead];
    }

    /** Lines 377-382: slide the window by half a buffer once more than half of
        it has been used up. */
    method Slide()
      requires Valid() && savedFilepos <= filepos <= savedFilepos + bufRead
      modifies buf, this`bufRead, this`savedFilepos
      ensures Valid() && savedFilepos <= filepos && savedFilepos + bufRead == old(savedFilepos + bufRead)
    {
      hide Ladder, AuthenticTrace, End;
      if filepos - savedFilepos > FSYS_BUFLEN / 2 {
        WindowSlice(savedFilepos + FSYS_BUFLEN / 2, savedFilepos + bufRead);
        MoveHalf(bufRead);
        bufRead := bufRead - FSYS_BUFLEN / 2;
        savedFilepos := savedFilepos + FSYS_BUFLEN / 2;
      }
    }

    /** grub_memmove of the upper half of the buffer, `n` bytes of which count. */
    method MoveHalf(n: nat)
      requires FSYS_BUFLEN / 2 <= n <= FSYS_BUFLEN == buf.Length
      modifies buf
      ensures buf[..n - FSYS_BUFLEN / 2] == old(buf[FSYS_BUFLEN / 2..n])
    {
      forall k | 0 <= k < FSYS_BUFLEN / 2 {
        buf[k] := buf[FSYS_BUFLEN / 2 + k];
      }
    }

    /** grub_memmove from the window to the caller's memory. */
    method CopyBytes(dst: array<byte>, addr: nat, from: nat, amt: nat)
      requires dst != buf && from + amt <= buf.Length && addr + amt <= dst.Length
      modifies dst
      ensures dst[..addr + amt] == old(dst[..addr]) + buf[from..from + amt]
    {
      forall k | 0 <= k < amt {
        dst[addr + k] := buf[from + k];
      }
    }

    /** Lines 366-382: hand `amt` buffered bytes over, then slide. */
    method CopyOut(dst: array<byte>, addr: nat, amt: nat)
      requires Valid() && dst != buf && savedFilepos <= filepos
      requires 0 < amt && filepos + amt <= savedFilepos + bufRead && addr + amt <= dst.Length
      modifies dst, buf, this`filepos, this`bufRead, this`savedFilepos
      ensures Valid() && savedFilepos <= filepos == old(filepos) + amt <= |file|
      ensures dst[..addr + amt] == old(dst[..addr]) + file[old(filepos)..filepos]
    {
      hide Receiving, End;
      WindowSlice(filepos, filepos + amt);
      CopyBytes(dst, addr, filepos - savedFilepos, amt);
      ghost var copied := dst[..addr + amt];
      filepos := filepos + amt;
      Slide();
      assert dst[..addr + amt] == copied;
    }

    /** Lines 328-355: the position moved back, so abort and reopen the file. */
    method Reopen(sent: bool) returns (ok: bool)
      requires Valid()
      modifies buf, this`block, this`prevblock, this`bcounter, this`retry, this`bufRead, this`bufEof, this`acks,
               this`packetsize, this`filemax, this`net, this`savedFilepos
      ensures Valid() && savedFilepos == 0 && ok == sent
      ensures Now() == Fresh(filemax) && net == AfterAbort(old(Now()).(read := 0), old(net))
    {
      bufRead := 0;
      AbortLeaves(Now(), net);
      var aborted := BufFill(true);
      ok := SendRrq(sent);
    }

    /** One turn of the loop in tftp_read, without the refill. */
    method Deliver(dst: array<byte>, addr: nat, size: nat) returns (amt: nat)
      requires Valid() && dst != buf && savedFilepos <= filepos && 0 < size && addr + size <= dst.Length
      modifies dst, buf, this`filepos, this`bufRead, this`savedFilepos
      ensures Valid() && savedFilepos <= filepos == old(filepos) + amt && amt <= size
      ensures if amt > 0 then filepos <= |file| else bufRead == 0
      ensures dst[..addr + amt] == old(dst[..addr]) + (if amt > 0 then file[old(filepos)..filepos] else [])
    {
      var available := bufRead + savedFilepos - filepos;
      if available > size {
        available := size;
      }
      if available > 0 {
        amt := available;
        CopyOut(dst, addr, amt);
      } else {
        amt := 0;
        savedFilepos := savedFilepos + bufRead;
        bufRead := 0;
        assert buf[..bufRead] == [];
      }
    }

    /** In lock step the refill leaves something to read while the file lasts. */
    lemma LockstepRefilled(last: nat, size: nat)
      requires Valid() && Lockstep(last) && savedFilepos <= filepos && size > 0 && filepos + size <= |file|
      requires Full(Now())
      ensures bufRead > 0
    {
      hide Supplies, AuthenticTrace, Ladder;
    }

    /** The session after a reopening is served: what the abort leaves of the
        trace begins a new lock step. */
    ghost predicate LockstepAgain(last: nat)
      reads this
    {
      Served(file, bs, Fresh(filemax), AfterAbort(Now().(read := 0), net), last)
    }

    /** Moving back is safe when what follows serves a new session: at the end of
        the file at once, else behind one more data packet. */
    lemma MoveBack(last: nat)
      requires Setting()
      ensures bufEof && Served(file, bs, Fresh(filemax), net, last) ==> LockstepAgain(last)
      ensures (!bufEof && net != [] && net[0].Received? && net[0].packet.Data? && |net[0].packet.payload| <= packetsize
               && Served(file, bs, Fresh(filemax), net[1..], last)) ==> LockstepAgain(last)
    {
      hide Served;
    }

    /** Lines 391-403: read more; an empty buffer afterwards is an error. */
    method Refill(size: nat, ghost last: nat) returns (ok: bool)
      requires Valid() && savedFilepos <= filepos && size > 0
      modifies buf, this`block, this`prevblock, this`bcounter, this`retry, this`bufRead, this`bufEof, this`acks,
               this`packetsize, this`filemax, this`net
      ensures Valid() && |net| <= |old(net)|
      ensures ok && old(bufRead) == 0 ==> |net| < |old(net)|
      ensures (Now(), net) == (Fill(false, old(Now()), old(net)).0, Fill(false, old(Now()), old(net)).1)
      ensures ok == (Fill(false, old(Now()), old(net)).2 && bufRead > 0)
      ensures old(Lockstep(last)) && filepos + size <= |file| ==> ok && Lockstep(last)
    {
      hide Stored, Ladder, AuthenticTrace, Fill, Served;
      FillShrinks(false, Now(), net);
      ghost var step := Lockstep(last) && filepos + size <= |file|;
      if step {
        ServedFill(file, bs, Now(), net, last);
      }
      ok := BufFill(false);
      if !ok { return false; }
      if step {
        LockstepRefilled(last, size);
      }
      if bufRead == 0 { return false; }
    }

    /** tftp_read: bytes [filepos, filepos + size) of the file into `dst`,
        wherever filepos was moved to. Zero means that not all of them came,
        but those that did are the right ones. In lock step with the server
        nothing inside the file is missed. */
    method Read(dst: array<byte>, size0: int, sent: bool, ghost last: nat) returns (r: int)
      requires Valid() && dst != buf && size0 <= dst.Length
      modifies dst, buf, this`block, this`prevblock, this`bcounter, this`retry, this`bufRead, this`bufEof, this`acks,
               this`packetsize, this`filemax, this`net, this`savedFilepos, this`filepos
      ensures Valid()
      ensures old(filepos) <= filepos <= old(filepos) + (if size0 > 0 then size0 else 0) <= old(filepos) + dst.Length
      ensures filepos > old(filepos) ==>
        filepos <= |file| && dst[..filepos - old(filepos)] == file[old(filepos)..filepos]
      ensures r == if size0 > 0 && filepos == old(filepos) + size0 then size0 else 0
      ensures size0 > 0 && old(filepos) + size0 <= |file|
        && (if old(savedFilepos) <= old(filepos) then old(Lockstep(last)) else sent && old(LockstepAgain(last)))
        ==> r == size0 && Lockstep(last)
    {
      hide Stored, Ladder, AuthenticTrace, Served, Fill, End, AfterAbort, Receiving;
      if filepos < savedFilepos {
        var ok := Reopen(sent);
        if !ok { return 0; }
        ServedApart(file, bs, Fresh(old(filemax)), Now(), net, last);
      }
      r := ReadForward(dst, size0, last);
    }

    /** Lines 357-406: read on from a position that is not behind the window. */
    method ReadForward(dst: array<byte>, size0: int, ghost last: nat) returns (r: int)
      requires Valid() && dst != buf && size0 <= dst.Length && savedFilepos <= filepos
      modifies dst, buf, this`block, this`prevblock, this`bcounter, this`retry, this`bufRead, this`bufEof, this`acks,
               this`packetsize, this`filemax, this`net, this`savedFilepos, this`filepos
      ensures Valid()
      ensures old(filepos) <= filepos <= old(filepos) + (if size0 > 0 then size0 else 0) <= old(filepos) + dst.Length
      ensures filepos > old(filepos) ==>
        filepos <= |file| && dst[..filepos - old(filepos)] == file[old(filepos)..filepos]
      ensures r == if size0 > 0 && filepos == old(filepos) + size0 then size0 else 0
      ensures size0 > 0 && old(filepos) + size0 <= |file| && old(Lockstep(last)) ==> r == size0 && Lockstep(last)
    {
      hide Stored, Ladder, AuthenticTrace, Served, Fill, End, Receiving;
      var size, addr := size0, 0;
      r := 0;
      ghost var step := filepos + size0 <= |file| && Lockstep(last);
      while size > 0
        invariant Valid() && savedFilepos <= filepos
        invariant addr == r == filepos - old(filepos) && size == size0 - r
        invariant 0 <= r && (r == 0 || r <= size0)
        invariant r > 0 ==> filepos <= |file| && dst[..r] == file[old(filepos)..filepos]
        invariant step ==> Lockstep(last)
        decreases size, |net|
      {
        var amt, ok := ReadOnce(dst, addr, size, last);
        if amt > 0 {
          SplitSlice(file, old(filepos), filepos - amt, filepos);
        }
        size := size - amt;
        addr := addr + amt;
        r := r + amt;
        if !ok { return 0; }
      }
    }

    /** One turn of the loop in tftp_read (lines 359-403). */
    method ReadOnce(dst: array<byte>, addr: nat, size: nat, ghost last: nat) returns (amt: nat, ok: bool)
      requires Valid() && dst != buf && savedFilepos <= filepos && 0 < size && addr + size <= dst.Length
      modifies dst, buf, this`block, this`prevblock, this`bcounter, this`retry, this`bufRead, this`bufEof, this`acks,
               this`packetsize, this`filemax, this`net, this`savedFilepos, this`filepos
      ensures Valid() && savedFilepos <= filepos == old(filepos) + amt && amt <= size
      ensures amt > 0 ==> filepos <= |file|
      ensures dst[..addr + amt] == old(dst[..addr]) + (if amt > 0 then file[old(filepos)..filepos] else [])
      ensures |net| <= |old(net)| && (ok && amt == 0 ==> |net| < |old(net)|) && (amt == size ==> ok)
      ensures old(Lockstep(last)) && old(filepos) + size <= |file| ==> ok && Lockstep(last)
    {
      hide Stored, Ladder, AuthenticTrace, Served, Fill, End;
      ghost var p := Now();
      amt := Deliver(dst, addr, size);
      ServedApart(file, bs, p, Now(), net, last);
      ok := true;
      if size - amt > 0 {
        ok := Refill(size - amt, last);
      }
    }

    /** Lines 455-478: count the file by reading and discarding all of it. The
        count is exact, but what is announced meanwhile is added to it. */
    method CountFile() returns (ok: bool)
      requires Receiving() && Start() == 0
      modifies buf, this`block, this`prevblock, this`bcounter, this`retry, this`bufRead, this`bufEof, this`acks,
               this`packetsize, this`filemax, this`net
      ensures Setting()
      ensures (Now(), net, ok) == Counted(old(Now()).(size := 0), old(net))
      ensures ok ==> filemax == |file| + if AnnouncedWhileCounting(old(Now()), old(net)) then |file| else 0
    {
      hide Stored, Ladder, AuthenticTrace, Fill, AnnouncedWhileCounting, End;
      filemax := 0;
      ghost var start, trace, late := Now(), net, false;
      AnnouncedApart(old(Now()), start, trace);
      var more := true;
      while more
        invariant Receiving() && filemax == Start() + if late then |file| else 0
        invariant more ==> Counted(Now(), net) == Counted(start, trace)
        invariant more ==> AnnouncedWhileCounting(start, trace) == (late || AnnouncedWhileCounting(Now(), net))
        invariant !more ==> bufEof && Counted(start, trace) == (Now().(size := filemax + bufRead), net, true)
        invariant !more ==> AnnouncedWhileCounting(start, trace) == late
        decreases more, |net|
      {
        ghost var p, n := Now(), net;
        filemax := filemax + bufRead;
        Discard();
        if prevblock == 0 { NothingBuffered(); }
        CountStep(file, bs, p, n);
        ok := BufFill(false);
        if !ok { return false; }
        late := late || Fill(false, p.(size := -1, read := 0), n).0.size != -1;
        more := !bufEof;
      }
      EofAtEnd();
      filemax := filemax + bufRead;
      return true;
    }

    /** Drop the whole buffer. */
    method Discard()
      requires Receiving()
      modifies this`bufRead
      ensures Receiving() && bufRead == 0 && Start() == old(Start() + bufRead)
    {
      bufRead := 0;
      assert buf[..bufRead] == [];
    }

    lemma EofAtEnd()
      requires Receiving() && bufEof
      ensures End(file, bs, prevblock) == |file|
    {}

    /** tftp_dir: open the file and find its size, unless file names are only to
        be completed. When the server does not announce a size, the file is counted and opened once more. The size found
        is right exactly when none came too late, or the file is empty. */
    method Dir(printPossibilities: bool, sent: bool, sentAgain: bool, ghost last: nat) returns (ok: bool)
      requires Setting()
      modifies buf, this`block, this`prevblock, this`bcounter, this`retry, this`bufRead, this`bufEof, this`acks,
               this`packetsize, this`filemax, this`net, this`savedFilepos
      ensures printPossibilities ==> ok && Now() == old(Now()) && net == old(net) && savedFilepos == old(savedFilepos)
      ensures !printPossibilities ==> if sent then (ok, filemax) == DirResult(old(net), sentAgain) else !ok
      ensures !printPossibilities && ok ==> Valid() && savedFilepos == 0
      ensures !printPossibilities && ok ==> filemax == if LateSize(old(net)) then 2 * |file| else |file|
      ensures !printPossibilities && ok && old(KnownKinds(net)) ==> filemax == |file|
      ensures !printPossibilities && sent && ServedDir(file, bs, old(net), sentAgain, last) ==> ok && filemax == |file|
    {
      hide Stored, Ladder, Fill, Counted, AnnouncedWhileCounting, ServedDir;
      if printPossibilities { return true; }
      ghost var trace := net;
      if sent && ServedDir(file, bs, net, sentAgain, last) {
        DirSucceeds(file, bs, net, sentAgain, last);
      }
      if KnownKinds(net) && Fill(false, Fresh(-1), net).2 {
        KnownKindsAreInTime(file, bs, net);
      }
      filemax := -1;
      var again := false;
      while true
        invariant Setting() && (again ==> sent)
        invariant if again then Recounted(trace) else filemax == -1 && net == trace
        decreases !again
      {
        var started := SendRrq(if again then sentAgain else sent);
        if !started { return false; }
        LastFill(file, bs, filemax, net);
        var filled := BufFill(false);
        if !filled { return false; }
        if filemax != -1 { return true; }
        var counted := CountFile();
        if !counted { return false; }
        again := true;
      }
    }

    /** The file has been counted: how the count came about. */
    ghost predicate Recounted(trace: seq<Reception>)
      reads this
    {
      var (p1, net1, ok1) := Fill(false, Fresh(-1), trace);
      var (p2, net2, ok2) := Counted(p1.(size := 0), net1);
      && ok1 && p1.size == -1 && ok2 && filemax == p2.size && net == net2
      && filemax == |file| + if AnnouncedWhileCounting(p1, net1) then |file| else 0
    }
  }
}
