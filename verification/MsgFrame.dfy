/**
 Framing of phfs messages: the escape encoding of section 4.2 of RFC 1662 without a closing
 flag, and the decoder as a step function over single bytes.
 */
module MsgFrame {
  import opened Bytes
  import opened Words

  const MARK: Byte := 0x7e
  const ESC: Byte := 0x7d
  const ESCMARK: Byte := 0x5e
  const ESCESC: Byte := 0x5d

  const HDRSZ := 8
  const MAXLEN := 512

  // ---- payloads: csum and type in little endian, then the data

  /** msg_getlen: the upper half of the type. */
  function LenOf(p: seq<Byte>): (n: nat)
    requires |p| >= HDRSZ
  {
    Half(p, 6)
  }

  function Sum(s: seq<Byte>): (n: nat)
  {
    if s == [] then 0 else Sum(s[..|s| - 1]) + s[|s| - 1]
  }

  /** msg_csum: all bytes but the csum field, and its upper half, the sequence number. */
  function Csum(p: seq<Byte>): (c: nat)
    requires |p| >= HDRSZ
    ensures c < 0x1_0000
  {
    (Sum(p[4..]) + Half(p, 2)) % 0x1_0000
  }

  /** Changing one byte changes the sum by as much. */
  lemma {:induction false} SumOfByte(s: seq<Byte>, k: nat, b: Byte)
    requires k < |s|
    ensures Sum(s[k := b]) == Sum(s) - s[k] + b
  {
    var n := |s| - 1;
    if k < n {
      SumOfByte(s[..n], k, b);
      assert s[k := b][..n] == s[..n][k := b];
    } else {
      assert s[k := b][..n] == s[..n];
    }
  }

  /** What one byte does to the checksum: nothing in the checksum itself, else as much as it is; the upper byte of the sequence number 256 times. */
  lemma CsumOfByte(p: seq<Byte>, k: nat, b: Byte)
    requires HDRSZ <= |p| && k < |p|
    ensures var d := if k < 2 then 0 else if k == 3 then 0x100 * (b - p[k]) else b - p[k];
            Csum(p[k := b]) == (Csum(p) + d) % 0x1_0000
  {
    hide Sum;
    var q := p[k := b];
    var d := if k < 2 then 0 else if k == 3 then 0x100 * (b - p[k]) else b - p[k];
    if k < 4 {
      assert q[4..] == p[4..];
    } else {
      SumOfByte(p[4..], k - 4, b);
      assert q[4..] == p[4..][k - 4 := b];
    }
    assert Sum(q[4..]) + Half(q, 2) == Sum(p[4..]) + Half(p, 2) + d;
    ModPlus(Sum(p[4..]) + Half(p, 2), d);
  }

  lemma ModPlus(x: int, d: int)
    ensures (x + d) % 0x1_0000 == (x % 0x1_0000 + d) % 0x1_0000
  {
  }

  /** With nothing but zeros there is nothing to add. */
  lemma CsumOfZeros(n: nat)
    requires n >= HDRSZ
    ensures |Zeros(n)| == n && Csum(Zeros(n)) == 0
  {
    ZerosAre(n);
    ZerosAre(n - 4);
    ZerosSum(n - 4);
    assert Zeros(n)[4..] == Zeros(n - 4);
  }

  lemma {:induction false} ZerosAre(n: nat)
    ensures |Zeros(n)| == n && forall k :: 0 <= k < n ==> Zeros(n)[k] == 0
  {
    if n > 0 {
      ZerosAre(n - 1);
    }
  }

  /** As long as its header says, and not longer than a message may be. */
  predicate Complete(p: seq<Byte>) {
    HDRSZ <= |p| <= HDRSZ + MAXLEN && |p| == HDRSZ + LenOf(p)
  }

  predicate Checked(p: seq<Byte>) {
    Complete(p) && Half(p, 0) == Csum(p)
  }

  /** A message with one byte changed, any byte, is not a message any more. */
  lemma OneByteChanged(p: seq<Byte>, k: nat, b: Byte)
    requires Checked(p) && k < |p| && b != p[k]
    ensures !Checked(p[k := b])
  {
    hide Csum;
    CsumOfByte(p, k, b);
    if k == 3 {
      SmallStep(Csum(p), 0x100 * (b - p[k]));
    } else {
      SmallStep(Csum(p), b - p[k]);
    }
  }

  lemma SmallStep(c: nat, d: int)
    requires c < 0x1_0000 && -0x1_0000 < d < 0x1_0000 && d != 0
    ensures (c + d) % 0x1_0000 != c
  {
  }

  // ---- encoding

  function StuffByte(b: Byte): (s: seq<Byte>)
    ensures 1 <= |s| <= 2 && MARK !in s
  {
    if b == MARK then [ESC, ESCMARK] else if b == ESC then [ESC, ESCESC] else [b]
  }

  function Stuff(p: seq<Byte>): (s: seq<Byte>)
    ensures MARK !in s
  {
    if p == [] then [] else Stuff(p[..|p| - 1]) + StuffByte(p[|p| - 1])
  }

  function Frame(p: seq<Byte>): (s: seq<Byte>)
  {
    [MARK] + Stuff(p)
  }

  // ---- decoding

  /** What msg_read keeps between two bytes; only `framed` survives a call. */
  datatype Rx = Rx(framed: bool, got: seq<Byte>, escaped: bool)

  const START := Rx(false, [], false)

  datatype Outcome = More(rx: Rx) | Fail(framed: bool) | Done(p: seq<Byte>)

  function Unescape(c: Byte): (b: Byte)
  {
    if c == ESCMARK then MARK else if c == ESCESC then ESC else c
  }

  function Feed(rx: Rx, c: Byte): (o: Outcome)
  {
    if !rx.framed then More(rx.(framed := c == MARK))
    else if |rx.got| == HDRSZ + MAXLEN then Fail(false)
    else if c == MARK then Fail(true)
    else if !rx.escaped && c == ESC then More(rx.(escaped := true))
    else
      var got := rx.got + [if rx.escaped then Unescape(c) else c];
      if |got| >= HDRSZ && |got| == HDRSZ + LenOf(got) then
        if Half(got, 0) == Csum(got) then Done(got) else Fail(false)
      else More(Rx(true, got, false))
  }

  /** Bytes up to the one that ends the call. */
  function FeedAll(rx: Rx, s: seq<Byte>): (o: Outcome)
    decreases |s|
  {
    if s == [] then More(rx)
    else
      match Feed(rx, s[0])
      case More(rx') => FeedAll(rx', s[1..])
      case o => o
  }

  /** Successive device reads; the rest of the last one is lost, and running out of them is a failure. */
  function ReadChunks(rx: Rx, chunks: seq<seq<Byte>>): (r: (Outcome, seq<seq<Byte>>))
    ensures !r.0.More?
    decreases |chunks|
  {
    if chunks == [] then (Fail(false), [])
    else
      match FeedAll(rx, chunks[0])
      case More(rx') => ReadChunks(rx', chunks[1..])
      case o => (o, chunks[1..])
  }

  function Flatten(chunks: seq<seq<Byte>>): (s: seq<Byte>)
  {
    if chunks == [] then [] else chunks[0] + Flatten(chunks[1..])
  }

  lemma {:induction false} FeedConcat(rx: Rx, s: seq<Byte>, t: seq<Byte>)
    ensures FeedAll(rx, s + t) == match FeedAll(rx, s) case More(rx') => FeedAll(rx', t) case o => o
    decreases |s|
  {
    if s == [] {
      assert s + t == t;
    } else {
      assert (s + t)[1..] == s[1..] + t;
      match Feed(rx, s[0]) {
        case More(rx') => FeedConcat(rx', s[1..], t);
        case _ =>
      }
    }
  }

  /** How the stream is cut into reads does not matter. */
  lemma {:induction false} ChunksDoNotMatter(rx: Rx, chunks: seq<seq<Byte>>)
    ensures ReadChunks(rx, chunks).0 == match FeedAll(rx, Flatten(chunks)) case More(_) => Fail(false) case o => o
    decreases |chunks|
  {
    if chunks != [] {
      FeedConcat(rx, chunks[0], Flatten(chunks[1..]));
      match FeedAll(rx, chunks[0]) {
        case More(rx') => ChunksDoNotMatter(rx', chunks[1..]);
        case _ =>
      }
    }
  }

  // ---- a frame decodes to its payload

  lemma {:induction false} NoiseIsSkipped(s: seq<Byte>)
    requires MARK !in s
    ensures FeedAll(START, s) == More(START)
    decreases |s|
  {
    if s != [] {
      NoiseIsSkipped(s[1..]);
    }
  }

  lemma FeedOne(rx: Rx, c: Byte)
    ensures FeedAll(rx, [c]) == Feed(rx, c)
  {
  }

  lemma FeedTwo(rx: Rx, c: Byte, d: Byte)
    ensures FeedAll(rx, [c, d]) == match Feed(rx, c) case More(rx') => Feed(rx', d) case o => o
  {
    assert [c, d][1..] == [d];
    match Feed(rx, c) {
      case More(rx') => FeedOne(rx', d);
      case _ =>
    }
  }

  /** An escape in front of a byte that needs none, or is escaped itself, changes nothing. */
  lemma SuperfluousEscape(got: seq<Byte>, b: Byte)
    requires |got| < HDRSZ + MAXLEN && b != MARK && b != ESCMARK && b != ESCESC
    ensures FeedAll(Rx(true, got, false), [ESC, b]) == FeedAll(Rx(true, got, false), StuffByte(b))
  {
    FeedTwo(Rx(true, got, false), ESC, b);
    FeedStuffed(got, b);
  }

  /** The stuffed form of a byte feeds the byte. */
  lemma FeedStuffed(got: seq<Byte>, b: Byte)
    requires |got| < HDRSZ + MAXLEN
    ensures var got' := got + [b];
            FeedAll(Rx(true, got, false), StuffByte(b)) ==
              if |got'| >= HDRSZ && |got'| == HDRSZ + LenOf(got')
              then if Half(got', 0) == Csum(got') then Done(got') else Fail(false)
              else More(Rx(true, got', false))
  {
    if b == MARK || b == ESC {
      FeedTwo(Rx(true, got, false), ESC, StuffByte(b)[1]);
    } else {
      FeedOne(Rx(true, got, false), b);
    }
  }

  /** All of a payload but its end leaves the decoder waiting, wherever it is cut between bytes. */
  lemma {:induction false} FeedPrefix(p: seq<Byte>, k: nat)
    requires Complete(p) && k < |p|
    ensures FeedAll(Rx(true, [], false), Stuff(p[..k])) == More(Rx(true, p[..k], false))
  {
    if k > 0 {
      FeedPrefix(p, k - 1);
      assert p[..k][..k - 1] == p[..k - 1] && p[..k] == p[..k - 1] + [p[k - 1]];
      FeedConcat(Rx(true, [], false), Stuff(p[..k - 1]), StuffByte(p[k - 1]));
      FeedStuffed(p[..k - 1], p[k - 1]);
    }
  }

  /** The whole payload is accepted if and only if its checksum is right. */
  lemma FeedPayload(p: seq<Byte>)
    requires Complete(p)
    ensures FeedAll(Rx(true, [], false), Stuff(p)) == if Checked(p) then Done(p) else Fail(false)
  {
    var k := |p| - 1;
    FeedPrefix(p, k);
    assert p == p[..k] + [p[k]];
    FeedConcat(Rx(true, [], false), Stuff(p[..k]), StuffByte(p[k]));
    FeedStuffed(p[..k], p[k]);
  }

  /** Noise without a mark, a frame, anything: cut into any reads, this decodes to the payload if its checksum is right. */
  lemma FrameIsRead(noise: seq<Byte>, p: seq<Byte>, rest: seq<Byte>, chunks: seq<seq<Byte>>)
    requires MARK !in noise && Complete(p) && Flatten(chunks) == noise + Frame(p) + rest
    ensures ReadChunks(START, chunks).0 == if Checked(p) then Done(p) else Fail(false)
  {
    ChunksDoNotMatter(START, chunks);
    FeedConcat(START, noise + Frame(p), rest);
    FeedConcat(START, noise, Frame(p));
    NoiseIsSkipped(noise);
    FeedConcat(START, [MARK], Stuff(p));
    FeedOne(START, MARK);
    FeedPayload(p);
  }

  /** With any byte changed but those of the length, it is refused. */
  lemma DamagedIsRefused(noise: seq<Byte>, p: seq<Byte>, k: nat, b: Byte, rest: seq<Byte>, chunks: seq<seq<Byte>>)
    requires MARK !in noise && Checked(p) && k < |p| && b != p[k] && k != 6 && k != 7
    requires Flatten(chunks) == noise + Frame(p[k := b]) + rest
    ensures ReadChunks(START, chunks).0 == Fail(false)
  {
    OneByteChanged(p, k, b);
    FrameIsRead(noise, p[k := b], rest, chunks);
  }

  /** Whatever the line carries, what is accepted is a complete message with a right checksum. */
  lemma {:induction false} OnlyChecked(rx: Rx, s: seq<Byte>)
    requires |rx.got| <= HDRSZ + MAXLEN
    ensures match FeedAll(rx, s)
            case Done(p) => Checked(p) && rx.got <= p
            case More(rx') => |rx'.got| <= HDRSZ + MAXLEN && rx.got <= rx'.got
            case Fail(_) => true
    decreases |s|
  {
    if s != [] {
      match Feed(rx, s[0]) {
        case More(rx') => OnlyChecked(rx', s[1..]);
        case _ =>
      }
    }
  }

  lemma {:induction false} OnlyCheckedRead(rx: Rx, chunks: seq<seq<Byte>>)
    requires |rx.got| <= HDRSZ + MAXLEN
    ensures ReadChunks(rx, chunks).0.Done? ==> Checked(ReadChunks(rx, chunks).0.p)
  {
    ChunksDoNotMatter(rx, chunks);
    OnlyChecked(rx, Flatten(chunks));
  }

  // ---- resynchronisation after a truncated frame

  lemma {:induction false} MoreGrows(rx: Rx, s: seq<Byte>)
    requires rx.framed && FeedAll(rx, s).More?
    ensures FeedAll(rx, s).rx.framed && |rx.got| <= |FeedAll(rx, s).rx.got|
    decreases |s|
  {
    if s != [] {
      MoreGrows(Feed(rx, s[0]).rx, s[1..]);
    }
  }

  /** A frame cut anywhere before its end, even inside an escape pair, leaves the decoder waiting for more. */
  lemma TruncatedWaits(p: seq<Byte>, u: seq<Byte>)
    requires Complete(p) && u < Stuff(p)
    ensures var o := FeedAll(Rx(true, [], false), u);
            o.More? && o.rx.framed && |o.rx.got| < HDRSZ + MAXLEN
  {
    var rx, k := Rx(true, [], false), |p| - 1;
    var head := Stuff(p[..k]);
    FeedPrefix(p, k);
    assert Stuff(p) == head + StuffByte(p[k]);
    if |u| <= |head| {
      assert u + head[|u|..] == head;
      FeedConcat(rx, u, head[|u|..]);
      MoreGrows(rx, u);
      MoreGrows(FeedAll(rx, u).rx, head[|u|..]);
    } else {
      assert u == head + [ESC];
      FeedConcat(rx, head, [ESC]);
      FeedOne(Rx(true, p[..k], false), ESC);
    }
  }

  /** The next mark then ends the call, with the decoder still in a frame. */
  lemma MarkInterrupts(noise: seq<Byte>, p: seq<Byte>, u: seq<Byte>)
    requires MARK !in noise && Complete(p) && u < Stuff(p)
    ensures FeedAll(START, noise + [MARK] + u).More?
    ensures FeedAll(START, noise + [MARK] + u + [MARK]) == Fail(true)
  {
    FeedConcat(START, noise, [MARK]);
    NoiseIsSkipped(noise);
    FeedOne(START, MARK);
    FeedConcat(START, noise + [MARK], u);
    TruncatedWaits(p, u);
    FeedConcat(START, noise + [MARK] + u, [MARK]);
    FeedOne(FeedAll(Rx(true, [], false), u).rx, MARK);
  }

  /** Where a call ends in the middle of a read, it leaves the later reads. */
  lemma {:induction false} EndsInRead(rx: Rx, before: seq<seq<Byte>>, last: seq<Byte>, later: seq<seq<Byte>>)
    requires FeedAll(rx, Flatten(before)).More? && !FeedAll(rx, Flatten(before) + last).More?
    ensures ReadChunks(rx, before + [last] + later) == (FeedAll(rx, Flatten(before) + last), later)
    decreases |before|
  {
    FeedConcat(rx, Flatten(before), last);
    if before == [] {
      assert [] + last == last && (before + [last] + later) == [last] + later;
    } else {
      FeedConcat(rx, before[0], Flatten(before[1..]));
      assert Flatten(before) + last == before[0] + (Flatten(before[1..]) + last);
      FeedConcat(rx, before[0], Flatten(before[1..]) + last);
      EndsInRead(FeedAll(rx, before[0]).rx, before[1..], last, later);
      assert (before + [last] + later)[1..] == before[1..] + [last] + later;
    }
  }

  /**
   A truncated frame followed by the mark of the next one: the first call fails and keeps
   `framed`; the second call decodes the reads after the one with that mark. The complete frame
   comes through if that mark was the last byte of its read; what follows it there is lost.
   */
  lemma Resynchronise(noise: seq<Byte>, p: seq<Byte>, u: seq<Byte>, q: seq<Byte>, rest: seq<Byte>,
                      before: seq<seq<Byte>>, last: seq<Byte>, lost: seq<Byte>, later: seq<seq<Byte>>)
    requires MARK !in noise && Complete(p) && u < Stuff(p) && Checked(q)
    requires Flatten(before) + last == noise + [MARK] + u + [MARK] + lost && |lost| < |last|
    ensures ReadChunks(START, before + [last] + later) == (Fail(true), later)
    ensures lost == [] && Flatten(later) == Stuff(q) + rest ==> ReadChunks(Rx(true, [], false), later).0 == Done(q)
  {
    var s := noise + [MARK] + u;
    MarkInterrupts(noise, p, u);
    FeedConcat(START, s + [MARK], lost);
    var f := Flatten(before);
    assert |f| <= |s|;
    assert f == (f + last)[..|f|] == s[..|f|] && s == f + s[|f|..];
    FeedConcat(START, f, s[|f|..]);
    EndsInRead(START, before, last, later);
    if lost == [] && Flatten(later) == Stuff(q) + rest {
      ChunksDoNotMatter(Rx(true, [], false), later);
      FeedPayload(q);
      FeedConcat(Rx(true, [], false), Stuff(q), rest);
    }
  }

  /** A message takes at least as many bytes on the line as its encoding has. */
  lemma {:induction false} NeedsBytes(rx: Rx, s: seq<Byte>)
    requires rx.framed && FeedAll(rx, s).Done?
    ensures |Stuff(FeedAll(rx, s).p)| <= |Stuff(rx.got)| + |s| + if rx.escaped then 1 else 0
    decreases |s|
  {
    var o := Feed(rx, s[0]);
    StuffGrows(rx, s[0]);
    if o.More? {
      NeedsBytes(o.rx, s[1..]);
    }
  }

  lemma StuffGrows(rx: Rx, c: Byte)
    requires rx.framed
    ensures match Feed(rx, c)
            case More(rx') => rx'.framed &&
              |Stuff(rx'.got)| + (if rx'.escaped then 1 else 0) <= |Stuff(rx.got)| + (if rx.escaped then 1 else 0) + 1
            case Done(p) => |Stuff(p)| <= |Stuff(rx.got)| + (if rx.escaped then 1 else 0) + 1
            case Fail(_) => true
  {
    hide Csum;
    var b := if rx.escaped then Unescape(c) else c;
    assert (rx.got + [b])[..|rx.got|] == rx.got;
    assert Stuff(rx.got + [b]) == Stuff(rx.got) + StuffByte(b);
  }

  /**
   The second call delivers the next frame if and only if nothing of it was lost with the read
   that had its mark. (What follows the frame is nothing or another mark, as a sender sends.)
   */
  lemma LostOrRead(q: seq<Byte>, rest: seq<Byte>, lost: seq<Byte>, later: seq<seq<Byte>>)
    requires Checked(q) && lost + Flatten(later) == Stuff(q) + rest && |lost| <= |Stuff(q)|
    requires rest == [] || rest[0] == MARK
    ensures ReadChunks(Rx(true, [], false), later).0 == Done(q) <==> lost == []
  {
    hide Feed, FeedAll, Csum, Half, LenOf;
    var rx, s := Rx(true, [], false), Stuff(q);
    ChunksDoNotMatter(rx, later);
    if lost == [] {
      FeedPayload(q);
      FeedConcat(rx, s, rest);
    } else {
      var u := s[|lost|..];
      assert Flatten(later) == (lost + Flatten(later))[|lost|..] == u + rest;
      FeedConcat(rx, u, rest);
      var o := FeedAll(rx, u);
      if o.Done? {
        NeedsBytes(rx, u);
      } else if rest == [] {
        assert u + rest == u;
      } else if o.More? {
        MoreGrows(rx, u);
        FeedConcat(o.rx, [MARK], rest[1..]);
        assert [MARK] + rest[1..] == rest;
        MarkFails(o.rx);
      }
    }
  }

  lemma MarkFails(rx: Rx)
    requires rx.framed
    ensures FeedAll(rx, [MARK]).Fail?
  {
    FeedOne(rx, MARK);
  }

  function Zeros(n: nat): (s: seq<Byte>)
  {
    if n == 0 then [] else Zeros(n - 1) + [0]
  }

  /** The smallest message: all zeros. */
  const EMPTY: seq<Byte> := [0, 0, 0, 0, 0, 0, 0, 0]

  /** Two marks and a message in one read: it is lost. With the cut behind the second mark it is not. */
  lemma LostFrame()
    ensures Checked(EMPTY) && Stuff(EMPTY) == EMPTY
    ensures ReadChunks(START, [[MARK, MARK] + EMPTY] + []) == (Fail(true), [])
    ensures ReadChunks(Rx(true, [], false), []).0 == Fail(false)
    ensures ReadChunks(START, [[MARK, MARK]] + [EMPTY]) == (Fail(true), [EMPTY])
    ensures ReadChunks(Rx(true, [], false), [EMPTY]).0 == Done(EMPTY)
  {
    ZerosStuff(8);
    ZerosSum(4);
    assert Zeros(4) == [0, 0, 0, 0] && Zeros(8) == EMPTY;
    assert EMPTY[4..] == Zeros(4);
    hide FeedAll;
    FeedTwo(START, MARK, MARK);
    FeedConcat(START, [MARK, MARK], EMPTY);
    FirstFails([MARK, MARK] + EMPTY, []);
    FirstFails([MARK, MARK], [EMPTY]);
    assert Flatten([EMPTY]) == EMPTY + [] == EMPTY;
    LostOrRead(EMPTY, [], [], [EMPTY]);
  }

  lemma FirstFails(c: seq<Byte>, later: seq<seq<Byte>>)
    requires FeedAll(START, c) == Fail(true)
    ensures ReadChunks(START, [c] + later) == (Fail(true), later)
  {
    assert ([c] + later)[1..] == later;
  }

  lemma {:induction false} ZerosStuff(n: nat)
    ensures Stuff(Zeros(n)) == Zeros(n)
  {
    if n > 0 {
      ZerosStuff(n - 1);
      assert Zeros(n)[..|Zeros(n)| - 1] == Zeros(n - 1);
    }
  }

  lemma {:induction false} ZerosSum(n: nat)
    ensures Sum(Zeros(n)) == 0
  {
    if n > 0 {
      ZerosSum(n - 1);
      assert Zeros(n)[..|Zeros(n)| - 1] == Zeros(n - 1);
    }
  }

  const DATA: seq<Byte> := [0x7e, 0x7d, 0xff]
  const HEAD: seq<Byte> := [0x01, 0x02, 0x01, 0x00, 0x01, 0x02, 0x03, 0x00]

  /** Number 1, type 0x201, three bytes of data, two of which have to be escaped. */
  lemma FrameExample()
    ensures Csum(HEAD + DATA) == 0x201 && Checked(HEAD + DATA)
    ensures Frame(HEAD + DATA) == [0x7e] + HEAD + [0x7d, 0x5e, 0x7d, 0x5d, 0xff]
  {
    hide Sum, Stuff;
    var p := HEAD + DATA;
    HeadSum();
    Plain(HEAD);
    assert p[4..] == HEAD[4..] + [0x7e] + [0x7d] + [0xff] && p == HEAD + [0x7e] + [0x7d] + [0xff];
    AddThree(HEAD[4..], 0x7e, 0x7d, 0xff);
    AddThree(HEAD, 0x7e, 0x7d, 0xff);
  }

  lemma HeadSum()
    ensures Sum(HEAD[4..]) == 6
  {
    assert HEAD[4..] == [0x01] + [0x02] + [0x03] + [0x00];
    AddThree([0x01], 0x02, 0x03, 0x00);
    AddByte([], 0x01);
    assert [] + [0x01] == [0x01];
  }

  lemma AddThree(s: seq<Byte>, a: Byte, b: Byte, c: Byte)
    ensures Sum(s + [a] + [b] + [c]) == Sum(s) + a + b + c
    ensures Stuff(s + [a] + [b] + [c]) == Stuff(s) + StuffByte(a) + StuffByte(b) + StuffByte(c)
  {
    hide Sum, Stuff;
    AddByte(s, a);
    AddByte(s + [a], b);
    AddByte(s + [a] + [b], c);
  }

  lemma AddByte(s: seq<Byte>, b: Byte)
    ensures Sum([]) == 0 && Sum(s + [b]) == Sum(s) + b
    ensures Stuff(s + [b]) == Stuff(s) + StuffByte(b)
  {
    assert (s + [b])[..|s|] == s;
  }

  lemma {:induction false} StuffConcat(p: seq<Byte>, q: seq<Byte>)
    ensures Stuff(p + q) == Stuff(p) + Stuff(q)
  {
    if q == [] {
      assert p + q == p;
    } else {
      hide Stuff, StuffByte;
      var n := |q| - 1;
      var r, b := q[..n], q[n];
      assert q == r + [b] && p + q == (p + r) + [b];
      StuffConcat(p, r);
      AddByte(r, b);
      AddByte(p + r, b);
      Regroup(Stuff(p), Stuff(r), StuffByte(b));
    }
  }

  lemma Regroup(a: seq<Byte>, b: seq<Byte>, c: seq<Byte>)
    ensures a + (b + c) == (a + b) + c
  {
  }

  lemma {:induction false} SumOfFill(n: nat, b: Byte)
    ensures Sum(Fill(n, b)) == n * b as int
  {
    if n > 0 {
      SumOfFill(n - 1, b);
      assert Fill(n, b)[..n - 1] == Fill(n - 1, b);
    }
  }

  lemma {:induction false} SumConcat(s: seq<Byte>, t: seq<Byte>)
    ensures Sum(s + t) == Sum(s) + Sum(t)
  {
    if t == [] {
      assert s + t == s;
    } else {
      SumConcat(s, t[..|t| - 1]);
      assert (s + t)[..|s + t| - 1] == s + t[..|t| - 1];
    }
  }

  const LONG: seq<Byte> := Fill(256, 0xff) + ([0xfe] + Fill(255, 0))

  /**
   512 bytes of data that add up to 2^16 - 2. If only the length byte, 2, is lost, the decoder
   takes the header alone for a message, and its checksum is right.
   */
  lemma LengthChanged()
    ensures var p: seq<Byte> := [0, 0, 0, 0, 0, 0, 0, 2] + LONG;
            Checked(p) && p[7 := 0][..HDRSZ] == EMPTY && ReadChunks(START, [Frame(p[7 := 0])]).0 == Done(EMPTY)
  {
    hide Sum, Stuff, ReadChunks;
    var p: seq<Byte> := [0, 0, 0, 0, 0, 0, 0, 2] + LONG;
    LongSum();
    var s: seq<Byte> := [0, 0, 0, 2];
    assert p[4..] == s + LONG;
    SumConcat(s, LONG);
    assert Sum(s) == 2 by {
      assert s == [] + [0] + [0] + [0] + [2];
      AddByte([], 0);
      AddThree([] + [0], 0, 0, 2);
    }
    var q := p[7 := 0];
    assert q == EMPTY + LONG && q[..HDRSZ] == EMPTY;
    StuffConcat(EMPTY, LONG);
    LostFrame();
    Regroup([MARK], Stuff(EMPTY), Stuff(LONG));
    assert Frame(q) == Frame(EMPTY) + Stuff(LONG) == [] + Frame(EMPTY) + Stuff(LONG);
    assert Flatten([Frame(q)]) == Frame(q) + [] == Frame(q);
    FrameIsRead([], EMPTY, Stuff(LONG), [Frame(q)]);
  }

  lemma LongSum()
    ensures |LONG| == 512 && Sum(LONG) == 0xfffe
  {
    hide Sum;
    SumConcat(Fill(256, 0xff), [0xfe] + Fill(255, 0));
    SumConcat([0xfe], Fill(255, 0));
    SumOfFill(256, 0xff);
    SumOfFill(255, 0);
    AddByte([], 0xfe);
    assert [] + [0xfe] == [0xfe];
  }

  /** Other bytes are sent as they are. */
  lemma {:induction false} Plain(p: seq<Byte>)
    requires MARK !in p && ESC !in p
    ensures Stuff(p) == p
  {
    if p != [] {
      Plain(p[..|p| - 1]);
    }
  }

  /** One byte per read. */
  function Singles(s: seq<Byte>): (chunks: seq<seq<Byte>>)
  {
    seq(|s|, i requires 0 <= i < |s| => [s[i]])
  }

  lemma {:induction false} SinglesFlatten(s: seq<Byte>)
    ensures Flatten(Singles(s)) == s
    decreases |s|
  {
    if s != [] {
      SinglesFlatten(s[1..]);
      assert Singles(s)[1..] == Singles(s[1..]);
    }
  }

  /** With a byte at a time, any truncated frame and then a complete one fail the first call and succeed on the second. */
  lemma ResynchroniseByteByByte(noise: seq<Byte>, p: seq<Byte>, t: seq<Byte>, q: seq<Byte>, rest: seq<Byte>)
    requires MARK !in noise && Complete(p) && Checked(q) && [MARK] <= t < Frame(p)
    ensures var (o, later) := ReadChunks(START, Singles(noise + t + Frame(q) + rest));
            o == Fail(true) && ReadChunks(Rx(true, [], false), later).0 == Done(q)
  {
    var u := t[1..];
    var s, r := noise + t, Stuff(q) + rest;
    SinglesFlatten(s);
    SinglesFlatten(r);
    assert Singles(noise + t + Frame(q) + rest) == Singles(s) + [[MARK]] + Singles(r);
    assert Frame(p)[1..] == Stuff(p) && t == [MARK] + u;
    assert Flatten(Singles(s)) + [MARK] == noise + [MARK] + u + [MARK] + [];
    Resynchronise(noise, p, u, q, rest, Singles(s), [MARK], [], Singles(r));
  }
}
