/**
  The data session over a channel that may lose, repeat, reorder, alter and invent
  lines. The cipher is ideal: a ciphertext opens only under the key, nonce and
  associated data it was sealed with.
 */
module Session {
  import opened Bits
  import opened Wrappers

  /** seq is a uint32_t. */
  const SEQ_LIMIT: nat := 0x1_0000_0000

  /** Temperature in tenths of a degree, and humidity. */
  datatype Reading = Reading(temp10: int, hum: int)

  /** v >> 8 */
  function Upper(v: nat): nat {
    v / 256
  }

  /** put_be32, seq.to_bytes(4, "big"): the bytes of v, highest first. */
  function Be32(v: nat): (s: seq<byte>)
    requires v < SEQ_LIMIT
    ensures |s| == 4
  {
    [Upper(Upper(Upper(v))), Upper(Upper(v)) % 256, Upper(v) % 256, v % 256]
  }

  lemma LowByte(a: nat, b: nat)
    requires Upper(a) == Upper(b) && a % 256 == b % 256
    ensures a == b
  {
  }

  lemma Be32Injective(a: nat, b: nat)
    requires a < SEQ_LIMIT && b < SEQ_LIMIT && Be32(a) == Be32(b)
    ensures a == b
  {
    assert Be32(a)[0] == Be32(b)[0] && Be32(a)[1] == Be32(b)[1];
    assert Be32(a)[2] == Be32(b)[2] && Be32(a)[3] == Be32(b)[3];
    LowByte(Upper(Upper(a)), Upper(Upper(b)));
    LowByte(Upper(a), Upper(b));
    LowByte(a, b);
  }

  /** Eight zero bytes, then the sequence number. */
  function Nonce(q: nat): (n: seq<byte>)
    requires q < SEQ_LIMIT
    ensures |n| == 12
  {
    [0, 0, 0, 0, 0, 0, 0, 0] + Be32(q)
  }

  lemma NonceInjective(a: nat, b: nat)
    requires a < SEQ_LIMIT && b < SEQ_LIMIT && Nonce(a) == Nonce(b)
    ensures a == b
  {
    assert Be32(a) == Nonce(a)[8..] && Be32(b) == Nonce(b)[8..];
    Be32Injective(a, b);
  }

  /** "data" || id || seq */
  function AssociatedData(id: seq<byte>, q: nat): seq<byte>
    requires q < SEQ_LIMIT
  {
    [0x64, 0x61, 0x74, 0x61] + id + Be32(q)
  }

  /** Four bytes read as a number, highest first. */
  function FromBe(b: seq<byte>): nat
    requires |b| == 4
  {
    0x100_0000 * (b[0] as nat) + 0x1_0000 * (b[1] as nat) + 0x100 * (b[2] as nat) + b[3] as nat
  }

  lemma UpperAndLow(v: nat)
    ensures v == 256 * Upper(v) + v % 256
  {
  }

  lemma Be32Reads(v: nat)
    requires v < SEQ_LIMIT
    ensures FromBe(Be32(v)) == v
  {
    UpperAndLow(v);
    UpperAndLow(Upper(v));
    UpperAndLow(Upper(Upper(v)));
  }

  /** Where the associated data and the nonce hold the constant, the identifier and the
      number. */
  lemma AssociatedDataHolds(id: seq<byte>, q: nat)
    requires q < SEQ_LIMIT
    ensures var ad, n := AssociatedData(id, q), |id| + 4;
            && |ad| == n + 4 && ad[..4] == [0x64, 0x61, 0x74, 0x61] && ad[4..n] == id
            && ad[n..] == Nonce(q)[8..] && (forall i | 0 <= i < 8 :: Nonce(q)[i] == 0)
            && FromBe(ad[n..]) == q
  {
    var ad, n := AssociatedData(id, q), |id| + 4;
    assert ad[n..] == Be32(q) == Nonce(q)[8..];
    Be32Reads(q);
  }

  /** No other device and no other number gives the same associated data. */
  lemma AssociatedDataInjective(a: seq<byte>, p: nat, b: seq<byte>, q: nat)
    requires p < SEQ_LIMIT && q < SEQ_LIMIT && AssociatedData(a, p) == AssociatedData(b, q)
    ensures a == b && p == q
  {
    AssociatedDataHolds(a, p);
    AssociatedDataHolds(b, q);
  }

  /** One use of the cipher for sealing. */
  datatype Sealed = Sealed(key: nat, nonce: seq<byte>, ad: seq<byte>, plain: Reading, ct: seq<byte>)

  /** A line as the server takes it apart: not DATA, eight characters and one more word;
      a number int(.., 16) refuses; or the number, which a sign can make negative, and
      the bytes, if the last word is hex. */
  datatype Line = Malformed | BadNumber | Data(q: int, ct: Option<seq<byte>>)

  /** Eight characters hold at most eight hex digits. */
  predicate LineOk(line: Line) {
    line.Data? ==> line.q < SEQ_LIMIT
  }

  // ---------- the device ----------

  datatype DeviceState = DeviceState(q: nat, halted: bool)

  /** A turn of the loop: no valid reading, sealing fails, or a reading is sealed to the
      bytes ct and the line sent, or not. */
  datatype Turn = NoReading | SealFails | Send(reading: Reading, ct: seq<byte>, sent: bool)

  datatype Sent = Sent(state: DeviceState, sealed: seq<Sealed>, line: Option<Line>)

  ghost predicate DeviceOk(d: DeviceState) {
    d.q < SEQ_LIMIT && (!d.halted ==> d.q > 0)
  }

  ghost function DeviceStep(d: DeviceState, key: nat, id: seq<byte>, t: Turn): (r: Sent)
    requires DeviceOk(d)
    ensures DeviceOk(r.state)
  {
    if d.halted || t.NoReading? then Sent(d, [], None)
    else if t.SealFails? then Sent(d.(halted := true), [], None)
    else
      var e := Sealed(key, Nonce(d.q), AssociatedData(id, d.q), t.reading, t.ct);
      if !t.sent then Sent(d.(halted := true), [e], None)
      else
        var q := (d.q + 1) % SEQ_LIMIT;
        Sent(DeviceState(q, q == 0), [e], Some(Data(d.q, Some(t.ct))))
  }

  /** The i-th message of the session carries sequence number i + 1. */
  ghost predicate Numbered(m: seq<Sealed>, id: seq<byte>, i: nat)
    requires i < |m| < SEQ_LIMIT
  {
    m[i].nonce == Nonce(i + 1) && m[i].ad == AssociatedData(id, i + 1)
  }

  ghost predicate AllNumbered(m: seq<Sealed>, id: seq<byte>) {
    |m| < SEQ_LIMIT && forall i | 0 <= i < |m| :: Numbered(m, id, i)
  }

  ghost predicate DistinctNonces(m: seq<Sealed>) {
    forall i, j | 0 <= i < j < |m| :: m[i].nonce != m[j].nonce
  }

  lemma NumberedAreDistinct(m: seq<Sealed>, id: seq<byte>)
    requires AllNumbered(m, id)
    ensures DistinctNonces(m)
  {
    forall i, j | 0 <= i < j < |m|
      ensures m[i].nonce != m[j].nonce
    {
      assert Numbered(m, id, i) && Numbered(m, id, j);
      if m[i].nonce == m[j].nonce {
        NonceInjective(i + 1, j + 1);
      }
    }
  }

  lemma NumberedNext(m: seq<Sealed>, id: seq<byte>, e: Sealed)
    requires AllNumbered(m, id) && |m| + 1 < SEQ_LIMIT
    requires e.nonce == Nonce(|m| + 1) && e.ad == AssociatedData(id, |m| + 1)
    ensures AllNumbered(m + [e], id)
  {
    forall i | 0 <= i < |m| + 1
      ensures Numbered(m + [e], id, i)
    {
      assert i < |m| ==> Numbered(m, id, i);
    }
  }

  /** How many of the first k turns seal a reading. */
  ghost function Sealings(turns: seq<Turn>, k: nat): nat
    requires k <= |turns|
  {
    if k == 0 then 0 else Sealings(turns, k - 1) + if turns[k - 1].Send? then 1 else 0
  }

  /** How many of them also send it. */
  ghost function Sendings(turns: seq<Turn>, k: nat): nat
    requires k <= |turns|
  {
    if k == 0 then 0 else Sendings(turns, k - 1) + if turns[k - 1].Send? && turns[k - 1].sent then 1 else 0
  }

  /** Message k + 1 of the session is the reading and the bytes of this turn. */
  ghost predicate SealedAt(key: nat, id: seq<byte>, m: seq<Sealed>, k: nat, t: Turn)
    requires t.Send?
  {
    && k < |m| && k + 1 < SEQ_LIMIT
    && m[k] == Sealed(key, Nonce(k + 1), AssociatedData(id, k + 1), t.reading, t.ct)
  }

  ghost predicate PrintedAt(lines: seq<Line>, k: nat, q: nat, ct: seq<byte>) {
    k < |lines| && lines[k] == Data(q, Some(ct))
  }

  /** Turn i has sealed its reading and, if it is sent, printed its line. */
  ghost predicate TurnRun(key: nat, id: seq<byte>, n: nat, m: seq<Sealed>, turns: seq<Turn>, i: nat, lines: seq<Line>)
    requires i < |turns|
  {
    var t, k := turns[i], n + Sealings(turns, i);
    && (t.Send? ==> SealedAt(key, id, m, k, t))
    && (t.Send? && t.sent ==> PrintedAt(lines, Sendings(turns, i), k + 1, t.ct))
  }

  /** The first done turns have been run, the session having n messages before: every
      reading of theirs is sealed, in order and under the next number, and nothing else is;
      and every one sent has its line. */
  ghost predicate Ran(key: nat, id: seq<byte>, n: nat, m: seq<Sealed>, turns: seq<Turn>, done: nat, lines: seq<Line>) {
    && done <= |turns| && |m| == n + Sealings(turns, done) && |lines| == Sendings(turns, done)
    && forall i | 0 <= i < done :: TurnRun(key, id, n, m, turns, i, lines)
  }

  /** The device stops with this turn, after which n messages have been sealed. */
  predicate Halts(t: Turn, n: nat) {
    t.SealFails? || (t.Send? && (!t.sent || n == SEQ_LIMIT - 1))
  }

  /** One turn more: t has sealed its reading and printed its line. */
  ghost predicate TurnMade(key: nat, id: seq<byte>, m: seq<Sealed>, lines: seq<Line>, t: Turn,
                           m': seq<Sealed>, lines': seq<Line>) {
    && m <= m' && |m'| == |m| + (if t.Send? then 1 else 0)
    && lines <= lines' && |lines'| == |lines| + (if t.Send? && t.sent then 1 else 0)
    && (t.Send? ==> SealedAt(key, id, m', |m|, t))
    && (t.Send? && t.sent ==> PrintedAt(lines', |lines|, |m| + 1, t.ct))
  }

  lemma {:induction false} RanNext(key: nat, id: seq<byte>, n: nat, m: seq<Sealed>, turns: seq<Turn>, i: nat,
                                   lines: seq<Line>, m': seq<Sealed>, lines': seq<Line>)
    requires i < |turns| && Ran(key, id, n, m, turns, i, lines)
    requires TurnMade(key, id, m, lines, turns[i], m', lines')
    ensures Ran(key, id, n, m', turns, i + 1, lines')
  {
    forall k | 0 <= k < i + 1
      ensures TurnRun(key, id, n, m', turns, k, lines')
    {
      assert k < i ==> TurnRun(key, id, n, m, turns, k, lines);
    }
  }

  /** Of the turns run, exactly the last one halts the device, if it is halted. */
  ghost predicate StopsAfter(n: nat, turns: seq<Turn>, done: nat, halted: bool) {
    && done <= |turns| && (halted ==> done > 0)
    && forall i | 0 <= i < done :: Halts(turns[i], n + Sealings(turns, i + 1)) <==> halted && i == done - 1
  }

  lemma {:induction false} StopsNext(n: nat, turns: seq<Turn>, i: nat, halted: bool)
    requires i < |turns| && StopsAfter(n, turns, i, false)
    requires halted <==> Halts(turns[i], n + Sealings(turns, i + 1))
    ensures StopsAfter(n, turns, i + 1, halted)
  {
  }

  /** The lines are those of the messages from n on, but for a last one not sent. */
  ghost predicate Consecutive(n: nat, m: seq<Sealed>, lines: seq<Line>, halted: bool) {
    && n + |lines| <= |m| <= n + |lines| + (if halted then 1 else 0)
    && forall k | 0 <= k < |lines| :: lines[k] == Data(n + k + 1, Some(m[n + k].ct))
  }

  lemma ConsecutiveNext(key: nat, id: seq<byte>, n: nat, m: seq<Sealed>, lines: seq<Line>, t: Turn,
                        m': seq<Sealed>, lines': seq<Line>, halted: bool)
    requires Consecutive(n, m, lines, false) && TurnMade(key, id, m, lines, t, m', lines')
    requires halted <==> Halts(t, |m'|)
    ensures Consecutive(n, m', lines', halted)
  {
  }

  class Device {
    const key: nat
    const id: seq<byte>
    var q: nat
    var halted: bool
    ghost var history: seq<Sealed>

    ghost function State(): DeviceState
      reads this
    {
      DeviceState(q, halted)
    }

    /** Everything sealed so far is numbered from 1, and q is the next number. */
    ghost predicate Valid()
      reads this
    {
      && q < SEQ_LIMIT
      && AllNumbered(history, id)
      && (forall i | 0 <= i < |history| :: history[i].key == key)
      && (!halted ==> q == |history| + 1)
    }

    /** The start of send_data: seq = 1. */
    constructor (key: nat, id: seq<byte>)
      ensures this.key == key && this.id == id
      ensures Valid() && State() == DeviceState(1, false) && history == []
    {
      this.key, this.id, q, halted, history := key, id, 1, false, [];
    }

    /** One turn of the loop of send_data: at most one message is sealed, under a nonce
        never used before. */
    method SendTurn(t: Turn) returns (line: Option<Line>)
      requires Valid()
      modifies this
      ensures Valid() && DistinctNonces(history)
      ensures old(halted) || !t.Send? ==> history == old(history) && line == None && q == old(q)
      ensures !old(halted) && t.Send? ==>
        && history == old(history) + [Sealed(key, Nonce(old(q)), AssociatedData(id, old(q)), t.reading, t.ct)]
        && line == if t.sent then Some(Data(old(q), Some(t.ct))) else None
      ensures halted <==> old(halted) || t.SealFails? || (t.Send? && (!t.sent || |history| == SEQ_LIMIT - 1))
      ensures DeviceOk(old(State()))
      ensures var r := DeviceStep(old(State()), key, id, t);
        r == Sent(State(), r.sealed, line) && history == old(history) + r.sealed
    {
      line := None;
      NumberedAreDistinct(history, id);
      if halted {
        return;
      }
      match t {
        case NoReading =>
        case SealFails =>
          halted := true;
        case Send(reading, ct, sent) =>
          ghost var e := Sealed(key, Nonce(q), AssociatedData(id, q), reading, ct);
          NumberedNext(history, id, e);
          history := history + [e];
          NumberedAreDistinct(history, id);
          if !sent {
            halted := true;
            return;
          }
          line := Some(Data(q, Some(ct)));
          q := (q + 1) % SEQ_LIMIT;
          if q == 0 {
            halted := true;
          }
      }
    }

    /** The loop of send_data over the given turns, of which the first done are run: all of
        them, unless one halts the device. The lines carry consecutive numbers, one for each
        message sealed, except a last one that could not be sent. */
    method SendData(turns: seq<Turn>) returns (lines: seq<Line>, ghost done: nat)
      requires Valid()
      modifies this
      ensures Valid() && DistinctNonces(history) && old(history) <= history
      ensures Ran(key, id, |old(history)|, history, turns, done, lines)
      ensures if old(halted) then halted && done == 0 else StopsAfter(|old(history)|, turns, done, halted)
      ensures done < |turns| ==> halted
      ensures Consecutive(|old(history)|, history, lines, halted)
    {
      lines := [];
      NumberedAreDistinct(history, id);
      done := 0;
      for i := 0 to |turns|
        invariant Valid() && DistinctNonces(history) && old(history) <= history && done == i
        invariant Ran(key, id, |old(history)|, history, turns, i, lines)
        invariant if old(halted) then halted && i == 0 else StopsAfter(|old(history)|, turns, i, halted)
        invariant Consecutive(|old(history)|, history, lines, halted)
      {
        if halted {
          return;
        }
        ghost var m, before := history, lines;
        var line := SendTurn(turns[i]);
        if line.Some? {
          lines := lines + [line.value];
        }
        RanNext(key, id, |old(history)|, m, turns, i, before, history, lines);
        StopsNext(|old(history)|, turns, i, halted);
        ConsecutiveNext(key, id, |old(history)|, m, before, turns[i], history, lines, halted);
        done := i + 1;
      }
    }
  }

  // ---------- the server ----------

  datatype Entry = Entry(q: nat, reading: Reading)

  /** What gcm.decrypt returns for a nonce, associated data and ciphertext. */
  type Opener = (seq<byte>, seq<byte>, seq<byte>) -> Option<Reading>

  /** The outcome of open_data; an exception leaves the loop over the lines. */
  datatype Verdict = Rejected | Accepted(entry: Entry) | Raised

  /** int(.., 16) refuses the number, or to_bytes refuses a negative one. */
  predicate Breaks(line: Line) {
    line.BadNumber? || (line.Data? && line.q < 0 && line.ct.Some?)
  }

  /** open_data: authentic first, then newer than everything accepted before. */
  function Judge(lastSeq: nat, open: Opener, id: seq<byte>, line: Line): Verdict
    requires LineOk(line)
  {
    match line
    case Malformed => Rejected
    case BadNumber => Raised
    case Data(q, ct) =>
      if ct.None? then Rejected
      else if q < 0 then Raised
      else
        match open(Nonce(q), AssociatedData(id, q), ct.value)
        case None => Rejected
        case Some(reading) => if q <= lastSeq then Rejected else Accepted(Entry(q, reading))
  }

  /** A connection: the last number accepted, whether it is still read, and what it gave. */
  datatype Connection = Connection(lastSeq: nat, alive: bool, entries: seq<Entry>)

  function Record(c: Connection, v: Verdict): Connection {
    if !c.alive then c
    else
      match v
      case Rejected => c
      case Raised => c.(alive := false)
      case Accepted(e) => Connection(e.q, true, c.entries + [e])
  }

  /** Sequence numbers rise, from above zero up to lastSeq. */
  ghost predicate Rising(c: Connection) {
    && (forall i, j | 0 <= i < j < |c.entries| :: c.entries[i].q < c.entries[j].q)
    && (forall i | 0 <= i < |c.entries| :: 0 < c.entries[i].q <= c.lastSeq)
  }

  lemma RecordRises(c: Connection, open: Opener, id: seq<byte>, line: Line)
    requires LineOk(line) && Rising(c)
    ensures Rising(Record(c, Judge(c.lastSeq, open, id, line)))
  {
  }

  class Server {
    var lastSeq: nat
    ghost var entries: seq<Entry>

    /** What was accepted on this connection rises to lastSeq. */
    ghost predicate Valid()
      reads this
    {
      Rising(Connection(lastSeq, true, entries))
    }

    constructor ()
      ensures Valid() && lastSeq == 0 && entries == []
    {
      lastSeq, entries := 0, [];
    }

    /** open_data */
    method OpenData(open: Opener, id: seq<byte>, line: Line) returns (v: Verdict)
      requires LineOk(line) && Valid()
      modifies this
      ensures Valid() && v == Judge(old(lastSeq), open, id, line)
      ensures v.Raised? <==> Breaks(line)
      ensures v.Raised? <==> line == BadNumber || (line.Data? && line.q < 0 && line.ct != None)
      ensures v.Accepted? <==> line.Data? && line.ct.Some? && line.q > old(lastSeq)
                               && open(Nonce(line.q), AssociatedData(id, line.q), line.ct.value).Some?
      ensures v.Accepted? ==>
        v.entry == Entry(line.q, open(Nonce(line.q), AssociatedData(id, line.q), line.ct.value).value)
      ensures if v.Accepted? then lastSeq == line.q && entries == old(entries) + [v.entry]
              else lastSeq == old(lastSeq) && entries == old(entries)
    {
      match line {
        case Malformed =>
          return Rejected;
        case BadNumber =>
          return Raised;
        case Data(q, ct) =>
          if ct == None {
            return Rejected;
          }
          if q < 0 {
            return Raised;
          }
          var pt := open(Nonce(q), AssociatedData(id, q), ct.value);
          if pt == None {
            return Rejected;
          }
          if q <= lastSeq {
            return Rejected;
          }
          lastSeq := q;
          v := Accepted(Entry(q, pt.value));
          entries := entries + [v.entry];
      }
    }

    /** receive_data: a connection starts at 0 and takes its lines in turn, until one
        raises; opens[i] is the cipher when line i arrives. */
    method ReceiveData(opens: seq<Opener>, id: seq<byte>, lines: seq<Line>) returns (raised: bool)
      requires |opens| == |lines| && forall i | 0 <= i < |lines| :: LineOk(lines[i])
      modifies this
      ensures Valid() && Connection(lastSeq, !raised, entries) == Received(opens, id, lines, |lines|)
      ensures raised <==> exists i | 0 <= i < |lines| :: Breaks(lines[i])
    {
      lastSeq, entries := 0, [];
      for i := 0 to |lines|
        invariant Valid() && Connection(lastSeq, true, entries) == Received(opens, id, lines, i)
        invariant forall k | 0 <= k < i :: !Breaks(lines[k])
      {
        var v := OpenData(opens[i], id, lines[i]);
        if v == Raised {
          ReceivedStops(opens, id, lines, i + 1, |lines|);
          return true;
        }
      }
      raised := false;
    }
  }

  function Received(opens: seq<Opener>, id: seq<byte>, lines: seq<Line>, k: nat): Connection
    requires k <= |opens| == |lines| && forall i | 0 <= i < |lines| :: LineOk(lines[i])
  {
    if k == 0 then Connection(0, true, [])
    else
      var c := Received(opens, id, lines, k - 1);
      Record(c, Judge(c.lastSeq, opens[k - 1], id, lines[k - 1]))
  }

  lemma {:induction false} ReceivedStops(opens: seq<Opener>, id: seq<byte>, lines: seq<Line>, j: nat, k: nat)
    requires j <= k <= |opens| == |lines| && forall i | 0 <= i < |lines| :: LineOk(lines[i])
    requires !Received(opens, id, lines, j).alive
    ensures Received(opens, id, lines, k) == Received(opens, id, lines, j)
  {
    if j < k {
      ReceivedStops(opens, id, lines, j, k - 1);
    }
  }

  /** What the cipher gives for a line, under the nonce and associated data of its number. */
  function Opened(open: Opener, id: seq<byte>, line: Line): Option<Reading>
    requires LineOk(line)
  {
    if line.Data? && line.q >= 0 && line.ct.Some? then open(Nonce(line.q), AssociatedData(id, line.q), line.ct.value)
    else None
  }

  /** What line k does, for every k: on a connection still read it is accepted exactly when
      it opens and is newer, one entry with the opened reading, and breaks the connection
      exactly when it raises; otherwise nothing changes. */
  lemma ReceivedStep(opens: seq<Opener>, id: seq<byte>, lines: seq<Line>, k: nat)
    requires k < |opens| == |lines| && forall i | 0 <= i < |lines| :: LineOk(lines[i])
    ensures var c, c', line := Received(opens, id, lines, k), Received(opens, id, lines, k + 1), lines[k];
            var p := Opened(opens[k], id, line);
            if c.alive && p.Some? && line.q > c.lastSeq
            then c' == Connection(line.q, true, c.entries + [Entry(line.q, p.value)])
            else c'.lastSeq == c.lastSeq && c'.entries == c.entries && (c'.alive <==> c.alive && !Breaks(line))
  {
  }

  lemma {:induction false} ReceivedPrefix(opens: seq<Opener>, id: seq<byte>, lines: seq<Line>, open: Opener, line: Line,
                                          k: nat)
    requires k <= |opens| == |lines| && LineOk(line) && forall i | 0 <= i < |lines| :: LineOk(lines[i])
    ensures Received(opens + [open], id, lines + [line], k) == Received(opens, id, lines, k)
  {
    if k > 0 {
      ReceivedPrefix(opens, id, lines, open, line, k - 1);
    }
  }

  /** Whatever the lines and whatever the cipher lets through, no sequence number is
      accepted twice or out of order. */
  lemma {:induction false} ReceivedRises(opens: seq<Opener>, id: seq<byte>, lines: seq<Line>, k: nat)
    requires k <= |opens| == |lines| && forall i | 0 <= i < |lines| :: LineOk(lines[i])
    ensures Rising(Received(opens, id, lines, k))
  {
    if k > 0 {
      ReceivedRises(opens, id, lines, k - 1);
      RecordRises(Received(opens, id, lines, k - 1), opens[k - 1], id, lines[k - 1]);
    }
  }

  // ---------- the whole system ----------

  /** The ideal cipher after the given uses: it opens what was sealed, nothing else. */
  ghost function Open(log: seq<Sealed>, key: nat, nonce: seq<byte>, ad: seq<byte>, ct: seq<byte>): (p: Option<Reading>)
    ensures p.Some? ==> Sealed(key, nonce, ad, p.value, ct) in log
    ensures p.None? ==> forall e | e in log :: !(e.key == key && e.nonce == nonce && e.ad == ad && e.ct == ct)
  {
    if exists e :: e in log && e.key == key && e.nonce == nonce && e.ad == ad && e.ct == ct then
      var e :| e in log && e.key == key && e.nonce == nonce && e.ad == ad && e.ct == ct;
      assert e == Sealed(key, nonce, ad, e.plain, ct);
      Some(e.plain)
    else None
  }

  /** Any line at all may reach the server at any time. Elsewhere is a use of the cipher
      under another key: another boot, another connection. */
  datatype Action = DeviceTurn(t: Turn) | Deliver(line: Line) | Elsewhere(e: Sealed)

  /** The device, all uses of the cipher, the lines the device printed, the connection. */
  datatype System = System(device: DeviceState, uses: seq<Sealed>, printed: seq<Line>, conn: Connection)

  ghost predicate ActionOk(key: nat, a: Action) {
    match a
    case DeviceTurn(_) => true
    case Deliver(line) => LineOk(line)
    case Elsewhere(e) => e.key != key
  }

  ghost function Act(s: System, key: nat, id: seq<byte>, a: Action): System
    requires DeviceOk(s.device) && ActionOk(key, a)
  {
    match a
    case DeviceTurn(t) =>
      var r := DeviceStep(s.device, key, id, t);
      var printed := if r.line.Some? then s.printed + [r.line.value] else s.printed;
      s.(device := r.state, uses := s.uses + r.sealed, printed := printed)
    case Deliver(line) =>
      s.(conn := Record(s.conn, Judge(s.conn.lastSeq, OpenAfter(key, s.uses), id, line)))
    case Elsewhere(e) => s.(uses := s.uses + [e])
  }

  /** The session begins with cipher uses under other keys only. */
  ghost predicate FreshKey(key: nat, earlier: seq<Sealed>) {
    forall i | 0 <= i < |earlier| :: earlier[i].key != key
  }

  ghost predicate ActionsOk(key: nat, acts: seq<Action>) {
    forall i | 0 <= i < |acts| :: ActionOk(key, acts[i])
  }

  ghost function After(key: nat, id: seq<byte>, earlier: seq<Sealed>, acts: seq<Action>): (s: System)
    requires ActionsOk(key, acts)
    ensures DeviceOk(s.device)
  {
    if acts == [] then System(DeviceState(1, false), earlier, [], Connection(0, true, []))
    else Act(After(key, id, earlier, acts[..|acts| - 1]), key, id, acts[|acts| - 1])
  }

  /** The lines that reach the server, in order. */
  ghost function Delivered(acts: seq<Action>): seq<Line> {
    if acts == [] then []
    else
      var init, last := Delivered(acts[..|acts| - 1]), acts[|acts| - 1];
      if last.Deliver? then init + [last.line] else init
  }

  /** The ideal cipher as it stands after the given uses. */
  ghost function OpenAfter(key: nat, uses: seq<Sealed>): Opener {
    (n, ad, ct) => Open(uses, key, n, ad, ct)
  }

  /** The cipher as it stood when each of these lines arrived. */
  ghost function Ciphers(key: nat, id: seq<byte>, earlier: seq<Sealed>, acts: seq<Action>): (opens: seq<Opener>)
    requires ActionsOk(key, acts)
    ensures |opens| == |Delivered(acts)|
  {
    if acts == [] then []
    else
      var init, last := acts[..|acts| - 1], acts[|acts| - 1];
      var opens := Ciphers(key, id, earlier, init);
      if last.Deliver? then opens + [OpenAfter(key, After(key, id, earlier, init).uses)] else opens
  }

  /** The connection of the whole system is what receive_data makes of the lines delivered,
      each opened with the cipher as it stands when the line arrives. */
  lemma {:induction false} ConnectionIsReceived(key: nat, id: seq<byte>, earlier: seq<Sealed>, acts: seq<Action>)
    requires ActionsOk(key, acts)
    ensures var opens, lines := Ciphers(key, id, earlier, acts), Delivered(acts);
            && (forall i | 0 <= i < |lines| :: LineOk(lines[i]))
            && After(key, id, earlier, acts).conn == Received(opens, id, lines, |lines|)
  {
    if acts != [] {
      var init, last := acts[..|acts| - 1], acts[|acts| - 1];
      ConnectionIsReceived(key, id, earlier, init);
      assert ActionOk(key, last);
      if last.Deliver? {
        var opens, lines := Ciphers(key, id, earlier, init), Delivered(init);
        ReceivedPrefix(opens, id, lines, OpenAfter(key, After(key, id, earlier, init).uses), last.line, |lines|);
      }
    }
  }

  /** The uses under one key, in order. */
  ghost function Under(key: nat, uses: seq<Sealed>): seq<Sealed> {
    if uses == [] then []
    else
      var init, last := uses[..|uses| - 1], uses[|uses| - 1];
      if last.key == key then Under(key, init) + [last] else Under(key, init)
  }

  lemma {:induction false} UnderMember(key: nat, uses: seq<Sealed>, e: Sealed)
    ensures e in Under(key, uses) <==> e in uses && e.key == key
  {
    if uses != [] {
      UnderMember(key, uses[..|uses| - 1], e);
      assert uses == uses[..|uses| - 1] + [uses[|uses| - 1]];
    }
  }

  lemma UnderNext(key: nat, uses: seq<Sealed>, e: Sealed)
    ensures Under(key, uses + [e]) == if e.key == key then Under(key, uses) + [e] else Under(key, uses)
  {
    assert (uses + [e])[..|uses|] == uses;
  }

  /** An accepted reading is the one sealed under its number. */
  ghost predicate Genuine(m: seq<Sealed>, e: Entry) {
    1 <= e.q <= |m| && m[e.q - 1].plain == e.reading
  }

  /** What every step keeps. */
  ghost predicate Safe(s: System, key: nat, id: seq<byte>) {
    var m := Under(key, s.uses);
    && AllNumbered(m, id)
    && (!s.device.halted ==> s.device.q == |m| + 1)
    && Rising(s.conn)
    && (forall i | 0 <= i < |s.conn.entries| :: Genuine(m, s.conn.entries[i]))
  }

  lemma UseKeeps(s: System, key: nat, id: seq<byte>, e: Sealed, d: DeviceState)
    requires Safe(s, key, id)
    requires e.key == key ==> !s.device.halted && DeviceOk(s.device)
                              && e.nonce == Nonce(s.device.q) && e.ad == AssociatedData(id, s.device.q)
    requires e.key == key ==> d.halted || d.q == s.device.q + 1
    requires e.key != key ==> d == s.device
    ensures Safe(s.(device := d, uses := s.uses + [e]), key, id)
  {
    var m, m' := Under(key, s.uses), Under(key, s.uses + [e]);
    UnderNext(key, s.uses, e);
    if e.key == key {
      NumberedNext(m, id, e);
    }
    forall i | 0 <= i < |s.conn.entries|
      ensures Genuine(m', s.conn.entries[i])
    {
      assert Genuine(m, s.conn.entries[i]);
    }
  }

  lemma DeliverKeeps(s: System, key: nat, id: seq<byte>, line: Line)
    requires DeviceOk(s.device) && LineOk(line) && Safe(s, key, id)
    ensures Safe(Act(s, key, id, Deliver(line)), key, id)
  {
    var open := OpenAfter(key, s.uses);
    RecordRises(s.conn, open, id, line);
    var v := Judge(s.conn.lastSeq, open, id, line);
    if v.Accepted? {
      OpenedIsMine(s, key, id, line.q, line.ct.value);
      assert Genuine(Under(key, s.uses), v.entry);
    }
    RecordGenuine(Under(key, s.uses), s.conn, v);
  }

  lemma RecordGenuine(m: seq<Sealed>, c: Connection, v: Verdict)
    requires forall i | 0 <= i < |c.entries| :: Genuine(m, c.entries[i])
    requires v.Accepted? ==> Genuine(m, v.entry)
    ensures forall i | 0 <= i < |Record(c, v).entries| :: Genuine(m, Record(c, v).entries[i])
  {
  }

  /** An authentic line is the message of that number. */
  lemma OpenedIsMine(s: System, key: nat, id: seq<byte>, q: nat, ct: seq<byte>)
    requires Safe(s, key, id) && q < SEQ_LIMIT
    ensures var m, p := Under(key, s.uses), Open(s.uses, key, Nonce(q), AssociatedData(id, q), ct);
            && (p.Some? <==> 1 <= q <= |m| && m[q - 1].ct == ct)
            && (p.Some? ==> m[q - 1].plain == p.value)
  {
    var m, p := Under(key, s.uses), Open(s.uses, key, Nonce(q), AssociatedData(id, q), ct);
    if p.Some? {
      var e := Sealed(key, Nonce(q), AssociatedData(id, q), p.value, ct);
      UnderMember(key, s.uses, e);
      var i :| 0 <= i < |m| && m[i] == e;
      assert Numbered(m, id, i);
      NonceInjective(i + 1, q);
    } else if 1 <= q <= |m| {
      assert Numbered(m, id, q - 1);
      UnderMember(key, s.uses, m[q - 1]);
    }
  }

  lemma TurnKeeps(s: System, key: nat, id: seq<byte>, t: Turn)
    requires DeviceOk(s.device) && Safe(s, key, id)
    ensures Safe(Act(s, key, id, DeviceTurn(t)), key, id)
  {
    var r := DeviceStep(s.device, key, id, t);
    if r.sealed != [] {
      UseKeeps(s, key, id, r.sealed[0], r.state);
    } else {
      assert s.uses + [] == s.uses;
    }
  }

  lemma ActKeeps(s: System, key: nat, id: seq<byte>, a: Action)
    requires DeviceOk(s.device) && ActionOk(key, a) && Safe(s, key, id)
    ensures Safe(Act(s, key, id, a), key, id)
  {
    match a {
      case DeviceTurn(t) => TurnKeeps(s, key, id, t);
      case Deliver(line) => DeliverKeeps(s, key, id, line);
      case Elsewhere(e) => UseKeeps(s, key, id, e, s.device);
    }
  }

  lemma {:induction false} UnderFresh(key: nat, earlier: seq<Sealed>)
    requires FreshKey(key, earlier)
    ensures Under(key, earlier) == []
  {
    if earlier != [] {
      UnderFresh(key, earlier[..|earlier| - 1]);
    }
  }

  lemma {:induction false} AlwaysSafe(key: nat, id: seq<byte>, earlier: seq<Sealed>, acts: seq<Action>)
    requires FreshKey(key, earlier) && ActionsOk(key, acts)
    ensures Safe(After(key, id, earlier, acts), key, id)
  {
    if acts == [] {
      UnderFresh(key, earlier);
    } else {
      var init := acts[..|acts| - 1];
      AlwaysSafe(key, id, earlier, init);
      ActKeeps(After(key, id, earlier, init), key, id, acts[|acts| - 1]);
    }
  }

  lemma TurnSeals(s: System, key: nat, id: seq<byte>, t: Turn)
    requires DeviceOk(s.device) && Safe(s, key, id)
    ensures var m, r := Under(key, s.uses), DeviceStep(s.device, key, id, t);
            Under(key, s.uses + r.sealed) == m + r.sealed && |m| + |r.sealed| < SEQ_LIMIT
  {
    var r := DeviceStep(s.device, key, id, t);
    if r.sealed != [] {
      UnderNext(key, s.uses, r.sealed[0]);
    } else {
      assert s.uses + [] == s.uses;
    }
  }

  /** What an action seals under the session key, and when it stops the device. */
  ghost predicate SealsAsTold(s: System, key: nat, id: seq<byte>, a: Action, s': System) {
    var m, m', n := Under(key, s.uses), Under(key, s'.uses), |Under(key, s.uses)| + 1;
    && (s'.device.halted <==> s.device.halted || (a.DeviceTurn? && Halts(a.t, |m'|)))
    && (a.Elsewhere? ==> s'.uses == s.uses + [a.e])
    && if a.DeviceTurn? && a.t.Send? && !s.device.halted
       then n < SEQ_LIMIT && m' == m + [Sealed(key, Nonce(n), AssociatedData(id, n), a.t.reading, a.t.ct)]
       else m' == m
  }

  lemma ActSeals(s: System, key: nat, id: seq<byte>, a: Action)
    requires DeviceOk(s.device) && Safe(s, key, id) && ActionOk(key, a)
    ensures SealsAsTold(s, key, id, a, Act(s, key, id, a))
  {
    match a {
      case DeviceTurn(t) => TurnSeals(s, key, id, t);
      case Deliver(_) =>
      case Elsewhere(e) => UnderNext(key, s.uses, e);
    }
  }

  /** In every reachable state: a reading is sealed exactly by a Send turn of a running
      device, under the next number, and the device stops exactly as Halts says. */
  lemma SealsExactly(key: nat, id: seq<byte>, earlier: seq<Sealed>, acts: seq<Action>, a: Action)
    requires FreshKey(key, earlier) && ActionsOk(key, acts) && ActionOk(key, a)
    ensures var s := After(key, id, earlier, acts); SealsAsTold(s, key, id, a, Act(s, key, id, a))
  {
    AlwaysSafe(key, id, earlier, acts);
    ActSeals(After(key, id, earlier, acts), key, id, a);
  }

  /** The turns of the device, in order. */
  ghost function Turns(acts: seq<Action>): seq<Turn> {
    if acts == [] then []
    else
      var init, last := Turns(acts[..|acts| - 1]), acts[|acts| - 1];
      if last.DeviceTurn? then init + [last.t] else init
  }

  lemma StepMade(s: System, key: nat, id: seq<byte>, t: Turn)
    requires DeviceOk(s.device) && Safe(s, key, id) && !s.device.halted
    ensures var s' := Act(s, key, id, DeviceTurn(t));
            TurnMade(key, id, Under(key, s.uses), s.printed, t, Under(key, s'.uses), s'.printed)
  {
    TurnSeals(s, key, id, t);
  }

  lemma {:induction false} RanWithin(key: nat, id: seq<byte>, n: nat, m: seq<Sealed>, turns: seq<Turn>, done: nat,
                                     lines: seq<Line>, halted: bool, t: Turn)
    requires Ran(key, id, n, m, turns, done, lines) && StopsAfter(n, turns, done, halted)
    ensures Ran(key, id, n, m, turns + [t], done, lines) && StopsAfter(n, turns + [t], done, halted)
  {
    forall i: nat | i <= done
      ensures Sealings(turns + [t], i) == Sealings(turns, i) && Sendings(turns + [t], i) == Sendings(turns, i)
    {
      CountsWithin(turns, t, i);
    }
    forall i | 0 <= i < done
      ensures TurnRun(key, id, n, m, turns + [t], i, lines)
      ensures Halts((turns + [t])[i], n + Sealings(turns + [t], i + 1)) <==> halted && i == done - 1
    {
      assert TurnRun(key, id, n, m, turns, i, lines);
    }
  }

  lemma {:induction false} CountsWithin(turns: seq<Turn>, t: Turn, k: nat)
    requires k <= |turns|
    ensures Sealings(turns + [t], k) == Sealings(turns, k) && Sendings(turns + [t], k) == Sendings(turns, k)
  {
    if k > 0 {
      CountsWithin(turns, t, k - 1);
    }
  }

  /** What the first done of the turns have sealed and printed is all that the state holds. */
  ghost predicate Accounted(s: System, key: nat, id: seq<byte>, turns: seq<Turn>, done: nat) {
    && Ran(key, id, 0, Under(key, s.uses), turns, done, s.printed)
    && StopsAfter(0, turns, done, s.device.halted) && (done < |turns| ==> s.device.halted)
  }

  lemma TurnAccounted(s: System, key: nat, id: seq<byte>, t: Turn, turns: seq<Turn>, done: nat) returns (now: nat)
    requires DeviceOk(s.device) && Safe(s, key, id) && Accounted(s, key, id, turns, done)
    ensures Accounted(Act(s, key, id, DeviceTurn(t)), key, id, turns + [t], now)
  {
    var s' := Act(s, key, id, DeviceTurn(t));
    RanWithin(key, id, 0, Under(key, s.uses), turns, done, s.printed, s.device.halted, t);
    if s.device.halted {
      assert s.uses + [] == s.uses;
      return done;
    }
    StepMade(s, key, id, t);
    ActSeals(s, key, id, DeviceTurn(t));
    RanNext(key, id, 0, Under(key, s.uses), turns + [t], done, s.printed, Under(key, s'.uses), s'.printed);
    StopsNext(0, turns + [t], done, s'.device.halted);
    now := done + 1;
  }

  /** Over every run: what is sealed under the session key is the readings of the Send
      turns up to the first one that halts the device, in order, and what is printed is the
      lines of those sent. */
  lemma {:induction false} SealedInOrder(key: nat, id: seq<byte>, earlier: seq<Sealed>, acts: seq<Action>)
    returns (done: nat)
    requires FreshKey(key, earlier) && ActionsOk(key, acts)
    ensures Accounted(After(key, id, earlier, acts), key, id, Turns(acts), done)
  {
    if acts == [] {
      UnderFresh(key, earlier);
      return 0;
    }
    var init, last := acts[..|acts| - 1], acts[|acts| - 1];
    var s := After(key, id, earlier, init);
    done := SealedInOrder(key, id, earlier, init);
    AlwaysSafe(key, id, earlier, init);
    if last.DeviceTurn? {
      done := TurnAccounted(s, key, id, last.t, Turns(init), done);
    } else {
      ActSeals(s, key, id, last);
    }
  }

  /** Over every run: no nonce is used twice under the session key, and at most 2^32 - 1
      messages are sealed. */
  lemma NoncesNeverRepeat(key: nat, id: seq<byte>, earlier: seq<Sealed>, acts: seq<Action>)
    requires FreshKey(key, earlier) && ActionsOk(key, acts)
    ensures var m := Under(key, After(key, id, earlier, acts).uses);
            |m| < SEQ_LIMIT && DistinctNonces(m)
  {
    AlwaysSafe(key, id, earlier, acts);
    NumberedAreDistinct(Under(key, After(key, id, earlier, acts).uses), id);
  }

  /** Over every run: the accepted readings are a subsequence of the sealed ones, in
      order and without repeats; the number of a reading is its place. */
  lemma AcceptedInOrder(key: nat, id: seq<byte>, earlier: seq<Sealed>, acts: seq<Action>)
    requires FreshKey(key, earlier) && ActionsOk(key, acts)
    ensures var s := After(key, id, earlier, acts);
            var m, es := Under(key, s.uses), s.conn.entries;
            && (forall i | 0 <= i < |es| :: 1 <= es[i].q <= |m| && es[i].reading == m[es[i].q - 1].plain)
            && (forall i, j | 0 <= i < j < |es| :: es[i].q < es[j].q)
  {
    AlwaysSafe(key, id, earlier, acts);
    var s := After(key, id, earlier, acts);
    assert forall i | 0 <= i < |s.conn.entries| :: Genuine(Under(key, s.uses), s.conn.entries[i]);
  }

  /** No line delivered in the run makes the server raise. */
  ghost predicate NothingBreaks(acts: seq<Action>) {
    forall i | 0 <= i < |acts| :: acts[i].Deliver? ==> !Breaks(acts[i].line)
  }

  /** The connection is read for as long as no line has made the server raise. */
  lemma {:induction false} AliveExactly(key: nat, id: seq<byte>, earlier: seq<Sealed>, acts: seq<Action>)
    requires ActionsOk(key, acts)
    ensures After(key, id, earlier, acts).conn.alive <==> NothingBreaks(acts)
  {
    if acts != [] {
      var init := acts[..|acts| - 1];
      AliveExactly(key, id, earlier, init);
      assert forall i | 0 <= i < |init| :: acts[i] == init[i];
    }
  }

  /** The line is, unaltered, a message of this session after the last one accepted. */
  ghost predicate Fresh(m: seq<Sealed>, lastSeq: nat, line: Line) {
    && line.Data? && line.ct.Some?
    && lastSeq < line.q <= |m| && m[line.q - 1].ct == line.ct.value
  }

  lemma DeliverExactly(s: System, key: nat, id: seq<byte>, line: Line)
    requires DeviceOk(s.device) && Safe(s, key, id) && LineOk(line)
    ensures var c, m := Act(s, key, id, Deliver(line)).conn, Under(key, s.uses);
            c == if !s.conn.alive then s.conn
                 else if Breaks(line) then s.conn.(alive := false)
                 else if Fresh(m, s.conn.lastSeq, line)
                 then Connection(line.q, true, s.conn.entries + [Entry(line.q, m[line.q - 1].plain)])
                 else s.conn
  {
    if line.Data? && line.q >= 0 && line.ct.Some? {
      OpenedIsMine(s, key, id, line.q, line.ct.value);
    }
  }

  /** In every reachable state, for every line: nothing happens once a line has made the
      server raise; a line that does so now ends the connection; any other line is accepted
      exactly when it is an unaltered line of this session, newer than the last accepted. */
  lemma AcceptsExactly(key: nat, id: seq<byte>, earlier: seq<Sealed>, acts: seq<Action>, line: Line)
    requires FreshKey(key, earlier) && ActionsOk(key, acts) && LineOk(line)
    ensures var s := After(key, id, earlier, acts);
            var c, m := Act(s, key, id, Deliver(line)).conn, Under(key, s.uses);
            c == if !NothingBreaks(acts) then s.conn
                 else if Breaks(line) then s.conn.(alive := false)
                 else if Fresh(m, s.conn.lastSeq, line)
                 then Connection(line.q, true, s.conn.entries + [Entry(line.q, m[line.q - 1].plain)])
                 else s.conn
  {
    AlwaysSafe(key, id, earlier, acts);
    AliveExactly(key, id, earlier, acts);
    DeliverExactly(After(key, id, earlier, acts), key, id, line);
  }

  lemma AfterNext(key: nat, id: seq<byte>, earlier: seq<Sealed>, acts: seq<Action>, a: Action, all: seq<Action>)
    requires ActionsOk(key, all) && all == acts + [a]
    ensures ActionsOk(key, acts) && ActionOk(key, a)
    ensures After(key, id, earlier, all) == Act(After(key, id, earlier, acts), key, id, a)
  {
    assert all[..|acts|] == acts && all[|acts|] == a;
    assert forall i | 0 <= i < |acts| :: acts[i] == all[i];
  }

  /** Over every run: a line that breaks the connection loses the reading behind it, however
      genuine, that would have been accepted without it. */
  lemma BreakingLineLosesReading(key: nat, id: seq<byte>, earlier: seq<Sealed>, acts: seq<Action>, bad: Line,
                                  line: Line)
    requires FreshKey(key, earlier) && ActionsOk(key, acts) && LineOk(bad) && LineOk(line) && Breaks(bad)
    requires var s := After(key, id, earlier, acts);
             NothingBreaks(acts) && Fresh(Under(key, s.uses), s.conn.lastSeq, line)
    ensures var s, arrives := After(key, id, earlier, acts), acts + [Deliver(line)];
            && ActionsOk(key, arrives)
            && After(key, id, earlier, arrives).conn.entries
            == s.conn.entries + [Entry(line.q, Under(key, s.uses)[line.q - 1].plain)]
    ensures var s, behind := After(key, id, earlier, acts), acts + [Deliver(bad)] + [Deliver(line)];
            ActionsOk(key, behind) && After(key, id, earlier, behind).conn.entries == s.conn.entries
  {
    var s, two := After(key, id, earlier, acts), acts + [Deliver(bad)];
    AcceptsExactly(key, id, earlier, acts, line);
    AfterNext(key, id, earlier, acts, Deliver(line), acts + [Deliver(line)]);
    AfterNext(key, id, earlier, two, Deliver(line), two + [Deliver(line)]);
    AfterNext(key, id, earlier, acts, Deliver(bad), two);
    AlwaysSafe(key, id, earlier, acts);
    BrokenIsDeaf(s, key, id, bad, line);
  }

  lemma BrokenIsDeaf(s: System, key: nat, id: seq<byte>, bad: Line, line: Line)
    requires DeviceOk(s.device) && Safe(s, key, id) && LineOk(bad) && LineOk(line) && Breaks(bad)
    ensures Act(Act(s, key, id, Deliver(bad)), key, id, Deliver(line)).conn.entries == s.conn.entries
  {
    DeliverExactly(s, key, id, bad);
  }

  /** The state once a first reading has been sent. */
  lemma FirstSent(key: nat, id: seq<byte>, earlier: seq<Sealed>, r: Reading, ct: seq<byte>, acts: seq<Action>)
    requires FreshKey(key, earlier) && acts == [DeviceTurn(Send(r, ct, true))]
    ensures ActionsOk(key, acts) && NothingBreaks(acts)
    ensures After(key, id, earlier, acts).conn == Connection(0, true, [])
    ensures Under(key, After(key, id, earlier, acts).uses) == [Sealed(key, Nonce(1), AssociatedData(id, 1), r, ct)]
  {
    AfterNext(key, id, earlier, [], DeviceTurn(Send(r, ct, true)), acts);
    UnderFresh(key, earlier);
    UnderNext(key, earlier, Sealed(key, Nonce(1), AssociatedData(id, 1), r, ct));
  }

  /** Such lines exist, and such readings: "DATA zzzzzzzz 00", a BadNumber, or
      "DATA -0000001 00", the number -1, loses the first reading of any session. */
  lemma BrokenConnectionLosesReading(key: nat, id: seq<byte>, earlier: seq<Sealed>, r: Reading, ct: seq<byte>,
                                     bad: Line, sent: seq<Action>)
    requires FreshKey(key, earlier) && (bad == BadNumber || bad == Data(-1, Some([0])))
    requires sent == [DeviceTurn(Send(r, ct, true))]
    ensures var arrives := Deliver(Data(1, Some(ct)));
            && ActionsOk(key, sent + [arrives]) && ActionsOk(key, sent + [Deliver(bad)] + [arrives])
            && After(key, id, earlier, sent + [arrives]).conn.entries == [Entry(1, r)]
            && After(key, id, earlier, sent + [Deliver(bad)] + [arrives]).conn.entries == []
  {
    FirstSent(key, id, earlier, r, ct, sent);
    BreakingLineLosesReading(key, id, earlier, sent, bad, Data(1, Some(ct)));
  }

  // ---------- a channel that keeps the order and loses nothing ----------

  /** The line of message n + 1, unaltered. */
  ghost predicate IsNext(m: seq<Sealed>, n: nat, line: Line) {
    n < |m| && line == Data(n + 1, Some(m[n].ct))
  }

  /** How many messages have arrived, each counted when its turn had come. */
  ghost function Arrived(key: nat, id: seq<byte>, earlier: seq<Sealed>, acts: seq<Action>): nat
    requires ActionsOk(key, acts)
  {
    if acts == [] then 0
    else
      var init, last := acts[..|acts| - 1], acts[|acts| - 1];
      var n := Arrived(key, id, earlier, init);
      if last.Deliver? && IsNext(Under(key, After(key, id, earlier, init).uses), n, last.line) then n + 1 else n
  }

  /** A line that may arrive after n messages without harm: it does not break the
      connection, and it is no later message than the next one. */
  ghost predicate Harmless(m: seq<Sealed>, n: nat, line: Line) {
    !Breaks(line) && (Fresh(m, n, line) ==> IsNext(m, n, line))
  }

  /** No line breaks the connection and no message overtakes another; repeated, altered and
      invented lines may still arrive. */
  ghost predicate InOrder(key: nat, id: seq<byte>, earlier: seq<Sealed>, acts: seq<Action>)
    requires ActionsOk(key, acts)
  {
    acts == [] ||
    var init, last := acts[..|acts| - 1], acts[|acts| - 1];
    InOrder(key, id, earlier, init) &&
    (last.Deliver? ==>
       Harmless(Under(key, After(key, id, earlier, init).uses), Arrived(key, id, earlier, init), last.line))
  }

  /** The server has exactly the first n readings. */
  ghost predicate Has(s: System, m: seq<Sealed>, n: nat) {
    && s.conn.alive && s.conn.lastSeq == n == |s.conn.entries| <= |m|
    && forall i | 0 <= i < n :: s.conn.entries[i] == Entry(i + 1, m[i].plain)
  }

  lemma DeliverAdvances(s: System, key: nat, id: seq<byte>, n: nat, line: Line)
    requires DeviceOk(s.device) && Safe(s, key, id) && LineOk(line)
    requires var m := Under(key, s.uses); Has(s, m, n) && Harmless(m, n, line)
    ensures var m, s' := Under(key, s.uses), Act(s, key, id, Deliver(line));
            s'.uses == s.uses && Has(s', m, if IsNext(m, n, line) then n + 1 else n)
  {
    DeliverExactly(s, key, id, line);
  }

  lemma UsesGrow(s: System, key: nat, id: seq<byte>, a: Action)
    requires DeviceOk(s.device) && ActionOk(key, a) && !a.Deliver?
    ensures var s' := Act(s, key, id, a); s'.conn == s.conn && Under(key, s.uses) <= Under(key, s'.uses)
  {
    match a {
      case DeviceTurn(t) =>
        var r := DeviceStep(s.device, key, id, t);
        if r.sealed != [] {
          UnderNext(key, s.uses, r.sealed[0]);
        } else {
          assert s.uses + [] == s.uses;
        }
      case Elsewhere(e) => UnderNext(key, s.uses, e);
    }
  }

  /** Completeness: over a channel that keeps the order and never breaks the connection, the
      server has exactly the readings of the messages that arrived; once all have, the whole
      list of sealed readings. */
  lemma {:induction false} OrderedDelivery(key: nat, id: seq<byte>, earlier: seq<Sealed>, acts: seq<Action>)
    requires FreshKey(key, earlier) && ActionsOk(key, acts) && InOrder(key, id, earlier, acts)
    ensures var s := After(key, id, earlier, acts);
            Has(s, Under(key, s.uses), Arrived(key, id, earlier, acts))
  {
    if acts != [] {
      var init, last := acts[..|acts| - 1], acts[|acts| - 1];
      OrderedDelivery(key, id, earlier, init);
      AlwaysSafe(key, id, earlier, init);
      StepDelivers(After(key, id, earlier, init), key, id, Arrived(key, id, earlier, init), last);
    }
  }

  /** Each turn, and then the line it prints. */
  ghost function Relayed(turns: seq<Turn>): (acts: seq<Action>)
    requires |turns| < SEQ_LIMIT && forall i | 0 <= i < |turns| :: turns[i].Send?
  {
    if turns == [] then []
    else
      var n, t := |turns| - 1, turns[|turns| - 1];
      Relayed(turns[..n]) + [DeviceTurn(t)] + [Deliver(Data(n + 1, Some(t.ct)))]
  }

  /** The server has the readings of all these turns. */
  ghost predicate HasAll(s: System, turns: seq<Turn>) {
    && s.conn.alive && s.conn.lastSeq == |s.conn.entries| == |turns|
    && forall i | 0 <= i < |turns| :: turns[i].Send? && s.conn.entries[i] == Entry(i + 1, turns[i].reading)
  }

  lemma RelayOne(s: System, key: nat, id: seq<byte>, turns: seq<Turn>, t: Turn)
    requires DeviceOk(s.device) && Safe(s, key, id) && !s.device.halted && t.Send? && HasAll(s, turns)
    requires |Under(key, s.uses)| == |turns| && |turns| + 1 < SEQ_LIMIT
    ensures var n, s1 := |turns| + 1, Act(s, key, id, DeviceTurn(t));
            var s2 := Act(s1, key, id, Deliver(Data(n, Some(t.ct))));
            && HasAll(s2, turns + [t]) && |Under(key, s2.uses)| == n
            && (s2.device.halted <==> !t.sent || n == SEQ_LIMIT - 1)
  {
    var n, s1 := |turns| + 1, Act(s, key, id, DeviceTurn(t));
    ActSeals(s, key, id, DeviceTurn(t));
    ActKeeps(s, key, id, DeviceTurn(t));
    DeliverExactly(s1, key, id, Data(n, Some(t.ct)));
  }

  /** Over a channel that passes every line on unaltered the server has exactly the readings
      the device took, in order, up to the last number there is. */
  lemma {:induction false} PerfectChannel(key: nat, id: seq<byte>, earlier: seq<Sealed>, turns: seq<Turn>)
    requires FreshKey(key, earlier) && |turns| < SEQ_LIMIT
    requires forall i | 0 <= i < |turns| :: turns[i].Send? && turns[i].sent
    ensures ActionsOk(key, Relayed(turns))
    ensures var s := After(key, id, earlier, Relayed(turns));
            && HasAll(s, turns) && |Under(key, s.uses)| == |turns|
            && (s.device.halted <==> |turns| == SEQ_LIMIT - 1)
  {
    if turns == [] {
      UnderFresh(key, earlier);
    } else {
      var init, t := turns[..|turns| - 1], turns[|turns| - 1];
      PerfectChannel(key, id, earlier, init);
      AlwaysSafe(key, id, earlier, Relayed(init));
      AfterTwo(key, id, earlier, Relayed(init), t, Data(|turns|, Some(t.ct)), Relayed(turns));
      RelayOne(After(key, id, earlier, Relayed(init)), key, id, init, t);
      assert turns == init + [t];
    }
  }

  lemma AfterTwo(key: nat, id: seq<byte>, earlier: seq<Sealed>, acts: seq<Action>, t: Turn, line: Line,
                 all: seq<Action>)
    requires ActionsOk(key, acts) && LineOk(line) && all == acts + [DeviceTurn(t)] + [Deliver(line)]
    ensures ActionsOk(key, all)
    ensures After(key, id, earlier, all)
         == Act(Act(After(key, id, earlier, acts), key, id, DeviceTurn(t)), key, id, Deliver(line))
  {
    AfterNext(key, id, earlier, acts + [DeviceTurn(t)], Deliver(line), all);
    AfterNext(key, id, earlier, acts, DeviceTurn(t), acts + [DeviceTurn(t)]);
  }

  lemma StepDelivers(s: System, key: nat, id: seq<byte>, n: nat, a: Action)
    requires DeviceOk(s.device) && ActionOk(key, a) && Safe(s, key, id) && Has(s, Under(key, s.uses), n)
    requires a.Deliver? ==> Harmless(Under(key, s.uses), n, a.line)
    ensures var s' := Act(s, key, id, a);
            Has(s', Under(key, s'.uses), if a.Deliver? && IsNext(Under(key, s.uses), n, a.line) then n + 1 else n)
  {
    if a.Deliver? {
      DeliverAdvances(s, key, id, n, a.line);
    } else {
      UsesGrow(s, key, id, a);
    }
  }
}
