/** phfs messages: the structure in memory, and sending and receiving it over a serial device. */
module Msg {
  import opened Bytes
  import opened MsgFrame
  import opened Words

  const RETRIES := 3 // MSGRECV_MAXRETR

  // ---- the line

  /** A serial device: writes go through whole or fail, reads deliver what has come in, or time out. */
  class Line {
    var sent: seq<Byte>
    var incoming: seq<seq<Byte>> // what the next reads return
    ghost var failures: nat                 // writes that failed
    ghost var waits: seq<seq<seq<Byte>>>    // what was there to read whenever an answer was awaited

    constructor ()
      ensures sent == [] && Fits() && failures == 0 && waits == []
    {
      sent, incoming, failures, waits := [], [], 0, [];
    }

    /** No read returns more than it was asked for. */
    predicate Fits()
      reads this
    {
      forall i :: 0 <= i < |incoming| ==> |incoming[i]| <= HDRSZ + MAXLEN
    }

    method Write(s: seq<Byte>) returns (res: int)
      modifies `sent, `failures
      ensures res < 0 || res == |s|
      ensures failures == old(failures) + if res < 0 then 1 else 0
      ensures res >= 0 ==> sent == old(sent) + s
      ensures old(sent) <= sent <= old(sent) + s
    {
      var ok: bool, part: nat := *, *;
      if ok || part > |s| {
        sent := sent + s;
        return |s|;
      }
      sent := sent + s[..part];
      failures := failures + 1;
      return EIO;
    }

    method Read(buff: array<Byte>) returns (res: int)
      requires Fits() && buff.Length == HDRSZ + MAXLEN
      modifies this`incoming, buff
      ensures Fits()
      ensures old(incoming) == [] ==> res < 0 && incoming == []
      ensures old(incoming) != [] ==>
                var s := old(incoming[0]);
                res == |s| && incoming == old(incoming[1..]) && buff[..|s|] == s
    {
      if incoming == [] {
        return EIO;
      }
      MemCpy(buff, 0, incoming[0]);
      res := |incoming[0]|;
      incoming := incoming[1..];
    }

    /** Time passes: the other side may send something. */
    method Wait()
      modifies `incoming, `waits
      ensures Fits() && waits == old(waits) + [incoming]
    {
      var some: seq<seq<Byte>> := *;
      incoming := some;
      if !Fits() {
        incoming := [];
      }
      waits := waits + [incoming];
    }
  }

  // ---- messages

  lemma HalfOfPart(p: seq<Byte>, q: seq<Byte>, from: nat, at: nat)
    requires from + |q| <= |p| && p[from..from + |q|] == q && at + 2 <= |q|
    ensures Half(p, from + at) == Half(q, at)
  {
    assert p[from + at] == p[from..from + |q|][at] && p[from + at + 1] == p[from..from + |q|][at + 1];
  }

  /** Where the halves of the two header words are. */
  lemma LaidOut(csum: U32, typ: U32, used: seq<Byte>)
    ensures var p := Le32(csum) + Le32(typ) + used;
            && |p| == HDRSZ + |used|
            && Half(p, 0) == csum % 0x1_0000 && Half(p, 2) == csum / 0x1_0000 && Half(p, 6) == typ / 0x1_0000
  {
    hide Le32, Half;
    var p := Le32(csum) + Le32(typ) + used;
    Le32RoundTrip(csum);
    Le32RoundTrip(typ);
    HalfOfPart(p, Le32(csum), 0, 0);
    HalfOfPart(p, Le32(csum), 0, 2);
    HalfOfPart(p, Le32(typ), 4, 2);
  }

  class Message {
    var csum: U32 // sequence number and checksum
    var typ: U32  // length and type
    const data: array<Byte>

    constructor ()
      ensures Valid() && fresh(data)
    {
      csum, typ, data := 0, 0, new Byte[MAXLEN];
    }

    /** msg_getlen */
    function Len(): (n: nat)
      reads this
    {
      typ / 0x1_0000
    }

    /** A message as its user sees it, with a length that the data can hold. */
    ghost predicate Valid()
      reads this
    {
      data.Length == MAXLEN && Len() <= MAXLEN
    }

    /** The header fields and the used data, as they lie in memory. */
    ghost function Payload(): (p: seq<Byte>)
      requires Valid()
      reads this, data
      ensures |p| == HDRSZ + Len() && Complete(p)
      ensures Half(p, 0) == csum % 0x1_0000 && Half(p, 2) == csum / 0x1_0000
    {
      hide Le32, Half;
      LaidOut(csum, typ, data[..Len()]);
      Le32(csum) + Le32(typ) + data[..Len()]
    }

    /** Byte `k` of the structure. */
    function At(k: nat): (b: Byte)
      requires Valid() && k < HDRSZ + Len()
      reads this, data
      ensures b == Payload()[k]
    {
      if k < 4 then Le32(csum)[k] else if k < HDRSZ then Le32(typ)[k - 4] else data[k - HDRSZ]
    }

    method SumBytes() returns (sum: nat)
      requires Valid()
      ensures sum == Sum(Payload()[4..]) % 0x1_0000
    {
      hide Le32, Half, Payload, At, Csum;
      ghost var p := Payload();
      var n := HDRSZ + Len();
      sum := 0;
      for k := 4 to n
        invariant sum == Sum(p[4..k]) % 0x1_0000
      {
        assert p[4..k + 1][..k - 4] == p[4..k];
        var b: int := At(k);
        sum := (sum + b) % 0x1_0000;
      }
      assert p[4..n] == p[4..];
    }

    /** msg_csum */
    method Checksum() returns (sum: nat)
      requires Valid()
      ensures sum == Csum(Payload())
    {
      sum := SumBytes();
      sum := (sum + csum / 0x1_0000) % 0x1_0000;
    }

    /** Filling in the checksum, as msg_send does, makes the message one that will be accepted. */
    method SetChecksum()
      requires Valid()
      modifies `csum
      ensures Valid() && csum / 0x1_0000 == old(csum) / 0x1_0000 // the sequence number
      ensures Checked(Payload()) && Payload()[4..] == old(Payload()[4..])
    {
      var sum := Checksum();
      csum := csum - csum % 0x1_0000 + sum;
      assert Payload()[4..] == old(Payload()[4..]);
    }

    /** msg_write */
    method Write(line: Line) returns (res: int)
      requires Valid()
      modifies line`sent, line`failures
      ensures res < 0 || res == HDRSZ + Len()
      ensures line.failures == old(line.failures) + if res < 0 then 1 else 0
      ensures res >= 0 ==> line.sent == old(line.sent) + Frame(Payload())
      ensures old(line.sent) <= line.sent <= old(line.sent) + Frame(Payload())
    {
      hide Le32, Half, Payload, At, Csum;
      ghost var p, was := Payload(), line.sent;
      res := line.Write([MARK]);
      if res < 0 {
        return;
      }
      var k := 0;
      while k < HDRSZ + Len()
        invariant 0 <= k <= |p|
        invariant line.sent == was + Frame(p[..k]) && line.failures == old(line.failures)
      {
        StuffNext(p, k);
        assert was + Frame(p[..k]) + StuffByte(p[k]) == was + Frame(p[..k + 1]);
        var c := At(k);
        if c == MARK || c == ESC {
          res := line.Write([ESC, if c == MARK then ESCMARK else ESCESC]);
        } else {
          res := line.Write([c]);
        }
        if res < 0 {
          return;
        }
        k := k + 1;
      }
      assert p[..k] == p;
      return k;
    }
  }

  /** The payload says all there is: checksum, sequence number, type, length and data. */
  lemma SamePayload(s: Message, r: Message)
    requires s.Valid() && r.Valid() && s.Payload() == r.Payload()
    ensures s.csum == r.csum && s.typ == r.typ && s.data[..s.Len()] == r.data[..r.Len()]
  {
    hide Le32, UnLe32;
    var p := s.Payload();
    assert p[..4] == Le32(s.csum) == Le32(r.csum);
    assert p[4..HDRSZ] == Le32(s.typ) == Le32(r.typ);
    Le32RoundTrip(s.csum);
    Le32RoundTrip(r.csum);
    Le32RoundTrip(s.typ);
    Le32RoundTrip(r.typ);
    assert p[HDRSZ..] == s.data[..s.Len()] == r.data[..r.Len()];
  }

  /** What Write sent, behind noise and cut into any reads, is what MsgRead delivers, if the checksum was set. */
  lemma SentIsRead(s: Message, noise: seq<Byte>, rest: seq<Byte>, chunks: seq<seq<Byte>>)
    requires s.Valid() && MARK !in noise && Flatten(chunks) == noise + Frame(s.Payload()) + rest
    ensures ReadChunks(START, chunks).0 == if s.csum % 0x1_0000 == Csum(s.Payload()) then Done(s.Payload()) else Fail(false)
  {
    FrameIsRead(noise, s.Payload(), rest, chunks);
  }

  lemma StuffNext(p: seq<Byte>, k: nat)
    requires k < |p|
    ensures Frame(p[..k + 1]) == Frame(p[..k]) + StuffByte(p[k])
    ensures Frame(p[..k + 1]) <= Frame(p)
  {
    assert p[..k + 1][..k] == p[..k];
    StuffPrefix(p, k + 1);
  }

  lemma {:induction false} StuffPrefix(p: seq<Byte>, k: nat)
    requires k <= |p|
    ensures Stuff(p[..k]) <= Stuff(p)
    decreases |p|
  {
    if k < |p| {
      StuffPrefix(p[..|p| - 1], k);
      assert p[..|p| - 1][..k] == p[..k];
    } else {
      assert p[..k] == p;
    }
  }

  // ---- receiving

  /** What a call of msg_read holds between two bytes: its locals, the state it was lent, and the message. */
  class Receiver {
    const msg: Message
    const headers: array<Byte>
    var state: bool // MSGREAD_FRAME
    var escfl: bool
    var len: nat

    constructor (msg: Message, state: bool)
      requires msg.data.Length == MAXLEN
      ensures Ready() && Abstract() == Rx(state, [], false)
      ensures this.msg == msg && fresh(headers)
    {
      this.msg, this.state, headers, escfl, len := msg, state, new Byte[HDRSZ], false, 0;
    }

    ghost predicate Shape()
      reads `len
    {
      headers.Length == HDRSZ && msg.data.Length == MAXLEN && headers != msg.data && len <= HDRSZ + MAXLEN
    }

    ghost predicate Ready()
      reads `len, msg, headers
    {
      Shape() && (len >= HDRSZ ==> Le32(msg.csum) + Le32(msg.typ) == headers[..])
    }

    ghost function Got(): (s: seq<Byte>)
      requires Shape()
      reads `len, headers, msg.data
      ensures |s| == len
    {
      if len <= HDRSZ then headers[..len] else headers[..] + msg.data[..len - HDRSZ]
    }

    ghost function Abstract(): (rx: Rx)
      requires Shape()
      reads this, headers, msg.data
    {
      Rx(state, Got(), escfl)
    }

    /** Stores an unescaped byte. */
    method Store(c: Byte)
      requires Ready() && len < HDRSZ + MAXLEN
      modifies `len, headers, msg.data, msg
      ensures Ready() && Got() == old(Got()) + [c]
    {
      hide Le32, UnLe32;
      if len < HDRSZ {
        headers[len] := c;
      } else {
        msg.data[len - HDRSZ] := c;
      }
      len := len + 1;
      if len == HDRSZ {
        UnLe32RoundTrip(headers[..4]);
        UnLe32RoundTrip(headers[4..]);
        msg.csum, msg.typ := UnLe32(headers[..4]), UnLe32(headers[4..]);
      }
    }

    /** When the headers are in, the message says how long it is. */
    lemma HeadersSay()
      requires Ready() && len >= HDRSZ
      ensures LenOf(Got()) == msg.Len()
      ensures len == HDRSZ + msg.Len() ==> msg.Valid() && msg.Payload() == Got()
    {
      Le32RoundTrip(msg.typ);
      assert Got()[..HDRSZ] == headers[..];
      assert Got()[6] == Le32(msg.typ)[2] && Got()[7] == Le32(msg.typ)[3];
    }

    /** The loop body of msg_read; `res` is zero to go on. */
    method Accept(c: Byte) returns (res: int)
      requires Ready()
      modifies this, headers, msg.data, msg
      ensures match Feed(old(Abstract()), c)
              case More(rx) => res == 0 && Ready() && Abstract() == rx
              case Fail(framed) => res == ENXIO && state == framed
              case Done(p) => res == |p| && !state && msg.Valid() && msg.Payload() == p
    {
      hide LenOf, Half, Csum, Le32, Got;
      if !state {
        state := c == MARK;
        return 0;
      }
      if len == HDRSZ + MAXLEN {
        state := false;
        return ENXIO;
      }
      if c == MARK {
        return ENXIO;
      }
      if !escfl && c == ESC {
        escfl := true;
        return 0;
      }
      var b := if escfl then Unescape(c) else c;
      escfl := false;
      Store(b);
      res := Finish();
    }

    method Finish() returns (res: int)
      requires Ready() && state && !escfl
      modifies `state
      ensures var got := Got();
              if len >= HDRSZ && len == HDRSZ + LenOf(got) then
                if Half(got, 0) == Csum(got)
                then res == len && !state && msg.Valid() && msg.Payload() == got
                else res == ENXIO && !state
              else res == 0 && state
    {
      hide Le32, Half, Csum, LenOf, Got, Sum;
      if len >= HDRSZ {
        HeadersSay();
        if len == HDRSZ + msg.Len() {
          state := false;
          var sum := msg.Checksum();
          if msg.csum % 0x1_0000 != sum {
            return ENXIO;
          }
          return len;
        }
      }
      return 0;
    }

    /** The bytes of one device read; `res` is zero if they do not end the call. */
    method AcceptAll(buff: array<Byte>, n: nat) returns (res: int)
      requires Ready() && n <= buff.Length && buff != headers && buff != msg.data
      modifies this, headers, msg.data, msg
      ensures match FeedAll(old(Abstract()), buff[..n])
              case More(rx) => res == 0 && Ready() && Abstract() == rx
              case Fail(framed) => res == ENXIO && state == framed
              case Done(p) => res == |p| && !state && msg.Valid() && msg.Payload() == p
    {
      hide Feed, Abstract;
      ghost var s := buff[..n];
      res := 0;
      for i := 0 to n
        invariant Ready() && s == buff[..n] && res == 0
        invariant FeedAll(old(Abstract()), s) == FeedAll(Abstract(), s[i..])
      {
        assert s[i..][0] == buff[i] && s[i..][1..] == s[i + 1..];
        res := Accept(buff[i]);
        if res != 0 {
          return;
        }
      }
      assert s[n..] == [];
    }
  }

  /** msg_read, on a line whose pending reads are known. */
  method MsgRead(line: Line, msg: Message, state: bool) returns (res: int, state': bool)
    requires line.Fits() && msg.data.Length == MAXLEN
    modifies line`incoming, msg, msg.data
    ensures line.Fits()
    ensures var (o, later) := ReadChunks(Rx(state, [], false), old(line.incoming));
            line.incoming == later &&
            match o
            case Fail(framed) => res == ENXIO && state' == framed
            case Done(p) => res == |p| && !state' && msg.Valid() && msg.Payload() == p
  {
    hide FeedAll;
    var r := new Receiver(msg, state);
    var buff := new Byte[HDRSZ + MAXLEN];
    while true
      invariant line.Fits() && r.Ready() && r.msg == msg
      invariant fresh(r) && fresh(r.headers) && fresh(buff) && buff != r.headers
      invariant ReadChunks(r.Abstract(), line.incoming) == ReadChunks(Rx(state, [], false), old(line.incoming))
      decreases |line.incoming|
    {
      var n := line.Read(buff);
      if n < 0 {
        return ENXIO, false;
      }
      res := r.AcceptAll(buff, n);
      if res != 0 {
        return res, r.state;
      }
    }
  }

  /** `s` grew, and ends with `end`. */
  predicate GrewTo(was: seq<Byte>, s: seq<Byte>, end: seq<Byte>) {
    was <= s && |was| + |end| <= |s| && s[|s| - |end|..] == end
  }

  /** What comes of successive reads, each after a wait: the first message accepted, if any. */
  function Tries(state: bool, waits: seq<seq<seq<Byte>>>): (o: Outcome)
    ensures !o.More?
  {
    if waits == [] then Fail(state)
    else
      var o := Tries(state, waits[..|waits| - 1]);
      if o.Fail? then ReadChunks(Rx(o.framed, [], false), waits[|waits| - 1]).0 else o
  }

  lemma TriesNext(state: bool, waits: seq<seq<seq<Byte>>>, incoming: seq<seq<Byte>>)
    ensures Tries(state, waits + [incoming])
            == if Tries(state, waits).Fail? then ReadChunks(Rx(Tries(state, waits).framed, [], false), incoming).0 else Tries(state, waits)
  {
    assert (waits + [incoming])[..|waits|] == waits;
  }

  /** One round of msg_send; a result above zero is success. */
  method Exchange(line: Line, smsg: Message, rmsg: Message, state: bool) returns (res: int, state': bool)
    requires smsg.Valid() && rmsg.data.Length == MAXLEN && smsg != rmsg && smsg.data != rmsg.data
    modifies line, rmsg, rmsg.data
    ensures old(line.sent) <= line.sent <= old(line.sent) + Frame(smsg.Payload())
    ensures res > 0 ==>
              && line.sent == old(line.sent) + Frame(smsg.Payload())
              && rmsg.Valid() && Checked(rmsg.Payload())
    // either the frame could not be sent, or what was read decides
    ensures if line.failures > old(line.failures) then
              res < 0 && state' == state && line.waits == old(line.waits) && line.failures == old(line.failures) + 1
            else
              && line.failures == old(line.failures) && |line.waits| == |old(line.waits)| + 1 && old(line.waits) <= line.waits
              && line.sent == old(line.sent) + Frame(smsg.Payload())
              && match ReadChunks(Rx(state, [], false), line.waits[|old(line.waits)|]).0
                 case Done(p) => res > 0 && rmsg.Valid() && rmsg.Payload() == p
                 case Fail(framed) => res <= 0 && state' == framed
  {
    hide Feed, FeedAll, ReadChunks, Checked, Frame;
    res := smsg.Write(line);
    if res < 0 {
      return res, state;
    }
    line.Wait();
    OnlyCheckedRead(Rx(state, [], false), line.incoming);
    res, state' := MsgRead(line, rmsg, state);
  }

  lemma TriesNothing(state: bool)
    ensures Tries(state, []) == Fail(state)
  {
  }

  /** msg_send: what it accepts is a checked message that came in after the whole of its own frame went out. */
  method MsgSend(line: Line, smsg: Message, rmsg: Message) returns (res: int)
    requires smsg.Valid() && rmsg.data.Length == MAXLEN && smsg != rmsg && smsg.data != rmsg.data
    modifies line, smsg`csum, rmsg, rmsg.data
    ensures smsg.Valid() && Checked(smsg.Payload()) && smsg.Payload()[4..] == old(smsg.Payload()[4..])
    ensures res == EOK || res == ENXIO
    ensures old(line.sent) <= line.sent && |line.sent| <= |old(line.sent)| + Off(RETRIES, |Frame(smsg.Payload())|)
    ensures res == EOK ==>
              && GrewTo(old(line.sent), line.sent, Frame(smsg.Payload()))
              && rmsg.Valid() && Checked(rmsg.Payload())
    // each round that fails could not send, or got no answer; it takes three of them to give up
    ensures old(line.waits) <= line.waits && line.failures >= old(line.failures)
    ensures var waits, rounds := line.waits[|old(line.waits)|..], |line.waits| - |old(line.waits)| + line.failures - old(line.failures);
            match Tries(false, waits)
            case Done(p) =>
              && res == EOK && rmsg.Payload() == p && 0 < rounds <= 3
              && waits != [] && Tries(false, waits[..|waits| - 1]).Fail?
            case Fail(_) => res == ENXIO && rounds == 3
  {
    hide Checked, Frame, ReadChunks, Tries, Message.Payload, Half, Le32;
    TriesNothing(false);
    assert line.waits[|line.waits|..] == [];
    var state := false;
    smsg.SetChecksum();
    ghost var p, was := smsg.Payload(), line.sent;
    for retr := 0 to RETRIES
      invariant smsg.Valid() && smsg.Payload() == p
      invariant was <= line.sent && |line.sent| <= |was| + Off(retr, |Frame(p)|)
      invariant old(line.waits) <= line.waits && line.failures >= old(line.failures)
      invariant |line.waits| - |old(line.waits)| + line.failures - old(line.failures) == retr
      invariant Tries(false, line.waits[|old(line.waits)|..]) == Fail(state)
    {
      var n: int;
      ghost var waits, at := line.waits, |old(line.waits)|;
      n, state := Exchange(line, smsg, rmsg, state);
      OffMono(retr + 1, RETRIES, |Frame(p)|);
      if |line.waits| > |waits| {
        assert line.waits[at..] == waits[at..] + [line.waits[|waits|]];
        assert line.waits[at..][..|waits| - at] == waits[at..];
        TriesNext(false, waits[at..], line.waits[|waits|]);
      } else {
        assert line.waits == waits;
      }
      if n > 0 {
        return EOK;
      }
    }
    return ENXIO;
  }
}
