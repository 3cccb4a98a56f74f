/**
  The wire format of usb/aap_transport.c: what build_frame writes and what one turn of the
  receive loop makes of a byte stream, for any four-byte check at the end of a frame.
*/
module AapWire {
  import opened Bytes

  /** What a frame ends with, as a function of the bytes before it. */
  type Check = seq<byte> -> seq<byte>

  ghost predicate FourBytes(check: Check) {
    forall d {:trigger check(d)} :: |check(d)| == CRC_SZ
  }

  const HDR_SZ: nat := 8
  const CRC_SZ: nat := 4
  const MAX_FRAME: nat := 16384
  const CH_MAX: nat := 8

  /** The source's uint16_t flags. */
  type uint16 = n: nat | n < 65536

  datatype Message = Message(ch: byte, flags: uint16, pay: seq<byte>)

  // ---------- building ----------

  /** flags | 3 */
  function OrThree(f: uint16): uint16 {
    f / 4 * 4 + 3
  }

  /** Upper six bits and lower two of an octet. */
  lemma OctetParts(x: bv8)
    ensures Octet(x) == 4 * Octet(x >> 2) + Octet(x & 3) && Octet(x & 3) < 4
    ensures Octet(x | 3) == 4 * Octet(x >> 2) + 3
  {
  }

  /** It sets the two low bits of the low byte and no other. */
  lemma OrThreeIsOr(f: uint16) returns (x: bv8)
    ensures f == f / 256 * 256 + Octet(x) && OrThree(f) == f / 256 * 256 + Octet(x | 3)
  {
    x := OctetFor(f % 256);
    OctetParts(x);
    LowByte(f, f / 256, Octet(x >> 2), Octet(x & 3));
  }

  lemma LowByte(f: nat, h: nat, q: nat, r: nat)
    requires f == 256 * h + 4 * q + r && r < 4
    ensures f / 4 * 4 == 256 * h + 4 * q
  {
    assert f == 4 * (64 * h + q) + r;
  }

  /** The low two bytes of n, low one first; a longer length wraps, as a uint16_t does. */
  function Bytes16(n: nat): seq<byte> {
    [n % 256, n / 256 % 256]
  }

  function Num16(lo: byte, hi: byte): uint16 {
    lo + 256 * hi
  }

  function Header(ch: byte, flags: uint16, plen: nat): seq<byte> {
    [ch, 0, 0, 0] + Bytes16(flags) + Bytes16(plen)
  }

  function Body(m: Message): seq<byte> {
    Header(m.ch, OrThree(m.flags), |m.pay|) + m.pay
  }

  function Frame(check: Check, m: Message): seq<byte> {
    Body(m) + check(Body(m))
  }

  function FrameAll(check: Check, ms: seq<Message>): seq<byte> {
    if ms == [] then [] else Frame(check, ms[0]) + FrameAll(check, ms[1..])
  }

  /** What the peer is meant to see of m: its flags with the two low bits set. */
  function Delivered(m: Message): Message {
    m.(flags := OrThree(m.flags))
  }

  /** Message d is m with the two low bits of its flags set. */
  predicate ArrivesAs(m: Message, d: Message) {
    d.ch == m.ch && d.pay == m.pay && d.flags == m.flags - m.flags % 4 + 3
  }

  function DeliveredAll(ms: seq<Message>): seq<Message> {
    seq(|ms|, i requires 0 <= i < |ms| => Delivered(ms[i]))
  }

  predicate Sendable(m: Message) {
    m.ch < CH_MAX && |m.pay| <= MAX_FRAME
  }

  // ---------- receiving ----------

  /** Starved: fewer than eight bytes came; Reject and Deliver also say how many bytes were taken. */
  datatype Verdict = Starved | Reject(used: nat) | Deliver(used: nat, m: Message)

  function Min(a: nat, b: nat): nat { if a < b then a else b }

  /** The four bytes compared with the check: what could be read, then what the variable held. */
  function CheckField(s: seq<byte>, junk: seq<byte>): seq<byte>
    requires |junk| == CRC_SZ
  {
    if |s| >= CRC_SZ then s[..CRC_SZ] else s + junk[|s|..]
  }

  predicate HeaderOk(s: seq<byte>)
    requires |s| >= HDR_SZ
  {
    s[0] < CH_MAX && Num16(s[6], s[7]) <= MAX_FRAME
  }

  /** The turn after a good header announcing end bytes of header and payload. */
  function JudgeBody(check: Check, s: seq<byte>, end: nat, junk: seq<byte>): Verdict
    requires |junk| == CRC_SZ && HDR_SZ <= end && HDR_SZ <= |s|
  {
    if |s| < end then Reject(|s|)
    else if check(s[..end]) != CheckField(s[end..], junk) then Reject(Min(|s|, end + CRC_SZ))
    else Deliver(Min(|s|, end + CRC_SZ), Message(s[0], Num16(s[4], s[5]), s[HDR_SZ..end]))
  }

  function Judge(check: Check, s: seq<byte>, junk: seq<byte>): Verdict
    requires |junk| == CRC_SZ
  {
    if |s| < HDR_SZ then Starved
    else if !HeaderOk(s) then Reject(HDR_SZ)
    else JudgeBody(check, s, HDR_SZ + Num16(s[6], s[7]), junk)
  }

  datatype Stats = Stats(bytes: nat, frames: nat, errors: nat, log: seq<Message>)

  function Count(st: Stats, v: Verdict): Stats {
    match v
    case Starved => st
    case Reject(_) => st.(errors := st.errors + 1)
    case Deliver(_, m) =>
      Stats(st.bytes + HDR_SZ + |m.pay| + CRC_SZ, st.frames + 1, st.errors, st.log + [m])
  }

  function Used(s: seq<byte>, v: Verdict): nat {
    match v
    case Starved => |s|
    case Reject(n) => n
    case Deliver(n, _) => n
  }

  /** The receive loop run until the stream is exhausted. */
  function Receive(check: Check, s: seq<byte>, junk: seq<byte>, st: Stats): Stats
    requires |junk| == CRC_SZ
  {
    if s == [] then st
    else
      var v := Judge(check, s, junk);
      Receive(check, s[Used(s, v)..], junk, Count(st, v))
  }

  // ---------- one frame at the head of a stream ----------

  lemma Num16OfBytes16(n: nat)
    ensures Num16(Bytes16(n)[0], Bytes16(n)[1]) == n % 65536
  {
  }

  lemma BodyHeader(m: Message)
    ensures |Body(m)| == HDR_SZ + |m.pay|
    ensures Body(m)[0] == m.ch && Num16(Body(m)[4], Body(m)[5]) == OrThree(m.flags)
    ensures Num16(Body(m)[6], Body(m)[7]) == |m.pay| % 65536
    ensures Body(m)[HDR_SZ..] == m.pay
  {
    Num16OfBytes16(OrThree(m.flags));
    Num16OfBytes16(|m.pay|);
  }

  lemma JudgeWhole(check: Check, body: seq<byte>, t: seq<byte>, rest: seq<byte>, junk: seq<byte>)
    requires |body| >= HDR_SZ && |t| == |junk| == CRC_SZ
    ensures JudgeBody(check, body + t + rest, |body|, junk)
         == if check(body) != t then Reject(|body| + CRC_SZ)
            else Deliver(|body| + CRC_SZ, Message(body[0], Num16(body[4], body[5]), body[HDR_SZ..]))
  {
    var s := body + t + rest;
    assert s[..|body|] == body;
    assert s[|body|..] == t + rest;
    assert (t + rest)[..CRC_SZ] == t;
    assert s[HDR_SZ..|body|] == body[HDR_SZ..];
  }

  lemma ReceiveStep(check: Check, s: seq<byte>, v: Verdict, rest: seq<byte>, junk: seq<byte>, st: Stats)
    requires |junk| == CRC_SZ && s != [] && v == Judge(check, s, junk) && rest == s[Used(s, v)..]
    ensures Receive(check, s, junk, st) == Receive(check, rest, junk, Count(st, v))
  {
  }

  /** The verdict on a whole frame: header and payload b, then t. */
  function WholeVerdict(check: Check, b: seq<byte>, t: seq<byte>): Verdict
    requires |b| >= HDR_SZ
  {
    if check(b) != t then Reject(|b| + CRC_SZ)
    else Deliver(|b| + CRC_SZ, Message(b[0], Num16(b[4], b[5]), b[HDR_SZ..]))
  }

  lemma ReceiveHead(check: Check, s: seq<byte>, b: seq<byte>, t: seq<byte>, rest: seq<byte>, junk: seq<byte>, st: Stats)
    requires |b| >= HDR_SZ && |t| == |junk| == CRC_SZ && s == b + t + rest
    requires HeaderOk(b) && |b| == HDR_SZ + Num16(b[6], b[7])
    ensures Receive(check, s, junk, st) == Receive(check, rest, junk, Count(st, WholeVerdict(check, b, t)))
  {
    var v := WholeVerdict(check, b, t);
    assert v == Judge(check, s, junk) by {
      JudgeWhole(check, b, t, rest, junk);
      assert s[0] == b[0] && s[6] == b[6] && s[7] == b[7];
    }
    assert s[|b| + CRC_SZ..] == rest;
    ReceiveStep(check, s, v, rest, junk, st);
  }

  lemma GoodFrame(check: Check, m: Message, b: seq<byte>)
    requires Sendable(m) && |b| == HDR_SZ + |m.pay|
    requires b[0] == m.ch && Num16(b[4], b[5]) == OrThree(m.flags) && Num16(b[6], b[7]) == |m.pay| % 65536
    requires b[HDR_SZ..] == m.pay
    ensures HeaderOk(b) && |b| == HDR_SZ + Num16(b[6], b[7])
    ensures WholeVerdict(check, b, check(b)) == Deliver(|b| + CRC_SZ, Delivered(m))
  {
  }

  lemma WithCheck(b: seq<byte>, t: seq<byte>)
    requires |b| >= HDR_SZ && |t| == CRC_SZ && HeaderOk(b)
    ensures var f := b + t;
      && |f| == |b| + CRC_SZ && f[..|f| - CRC_SZ] == b && f[|f| - CRC_SZ..] == t
      && HeaderOk(f) && Num16(f[6], f[7]) == Num16(b[6], b[7])
  {
    var f := b + t;
    assert f[0] == b[0] && f[6] == b[6] && f[7] == b[7];
  }

  lemma FrameShape(check: Check, m: Message)
    requires FourBytes(check) && Sendable(m)
    ensures var f := Frame(check, m);
      && |f| == HDR_SZ + |m.pay| + CRC_SZ
      && f[..|f| - CRC_SZ] == Body(m) && f[|f| - CRC_SZ..] == check(Body(m))
      && HeaderOk(f) && Num16(f[6], f[7]) == |m.pay|
  {
    BodyHeader(m);
    GoodFrame(check, m, Body(m));
    WithCheck(Body(m), check(Body(m)));
  }

  function Counted(st: Stats, m: Message): Stats {
    Stats(st.bytes + HDR_SZ + |m.pay| + CRC_SZ, st.frames + 1, st.errors, st.log + [m])
  }

  lemma ReceiveFrame(check: Check, s: seq<byte>, m: Message, rest: seq<byte>, junk: seq<byte>, st: Stats)
    requires FourBytes(check) && |junk| == CRC_SZ && Sendable(m) && s == Frame(check, m) + rest
    ensures Receive(check, s, junk, st) == Receive(check, rest, junk, Counted(st, Delivered(m)))
  {
    var b := Body(m);
    BodyHeader(m);
    GoodFrame(check, m, b);
    ReceiveHead(check, s, b, check(b), rest, junk, st);
    assert Count(st, Deliver(|b| + CRC_SZ, Delivered(m))) == Counted(st, Delivered(m));
  }

  function CountedAll(check: Check, st: Stats, ms: seq<Message>): Stats {
    Stats(st.bytes + |FrameAll(check, ms)|, st.frames + |ms|, st.errors, st.log + DeliveredAll(ms))
  }

  lemma CountedSplit(check: Check, st: Stats, ms: seq<Message>)
    requires FourBytes(check) && ms != []
    ensures CountedAll(check, Counted(st, Delivered(ms[0])), ms[1..]) == CountedAll(check, st, ms)
  {
    BodyHeader(ms[0]);
    assert st.log + [Delivered(ms[0])] + DeliveredAll(ms[1..]) == st.log + DeliveredAll(ms);
  }

  lemma SplitFirst(check: Check, ms: seq<Message>, rest: seq<byte>)
    requires ms != []
    ensures FrameAll(check, ms) + rest == Frame(check, ms[0]) + (FrameAll(check, ms[1..]) + rest)
  {
  }

  /** Parsing the frames of any list of sendable messages delivers exactly that list, with no error. */
  lemma {:induction false} StreamRoundTrip(check: Check, s: seq<byte>, ms: seq<Message>, rest: seq<byte>,
                                           junk: seq<byte>, st: Stats)
    requires FourBytes(check) && |junk| == CRC_SZ && s == FrameAll(check, ms) + rest
    requires forall i | 0 <= i < |ms| :: Sendable(ms[i])
    ensures Receive(check, s, junk, st)
         == Receive(check, rest, junk, CountedAll(check, st, ms))
    ensures forall i | 0 <= i < |ms| :: ArrivesAs(ms[i], DeliveredAll(ms)[i])
    decreases |ms|
  {
    if ms == [] {
      assert s == rest;
      assert st.log + DeliveredAll(ms) == st.log;
    } else {
      var m, tail := ms[0], FrameAll(check, ms[1..]) + rest;
      assert Receive(check, s, junk, st) == Receive(check, tail, junk, Counted(st, Delivered(m))) by {
        SplitFirst(check, ms, rest);
        ReceiveFrame(check, s, m, tail, junk, st);
      }
      assert Receive(check, tail, junk, Counted(st, Delivered(m)))
          == Receive(check, rest, junk, CountedAll(check, st, ms)) by {
        StreamRoundTrip(check, tail, ms[1..], rest, junk, Counted(st, Delivered(m)));
        CountedSplit(check, st, ms);
      }
    }
  }

  lemma DeliveredBounded(check: Check, s: seq<byte>, junk: seq<byte>)
    requires |junk| == CRC_SZ && Judge(check, s, junk).Deliver?
    ensures s != [] && s[0] < CH_MAX && Judge(check, s, junk).used <= HDR_SZ + MAX_FRAME + CRC_SZ
  {
  }

  lemma JudgeGood(check: Check, b: seq<byte>, t: seq<byte>, junk: seq<byte>)
    requires |b| >= HDR_SZ && |t| == |junk| == CRC_SZ && HeaderOk(b) && |b| == HDR_SZ + Num16(b[6], b[7])
    ensures Judge(check, b + t, junk) == WholeVerdict(check, b, t)
  {
    WithCheck(b, t);
    assert b + t + [] == b + t;
    JudgeWhole(check, b, t, [], junk);
  }

  /**
    What a frame costs whose end is missing: nothing when not even the header came, else one error, unless only check
    bytes are missing and the variable they are read into happens to hold them.
  */
  lemma CutFrame(check: Check, m: Message, k: nat, junk: seq<byte>)
    requires FourBytes(check) && |junk| == CRC_SZ && Sendable(m) && k < |m.pay| + 12
    ensures |Frame(check, m)| == |m.pay| + 12
    ensures var v, missing := Judge(check, Frame(check, m)[..k], junk), |m.pay| + 12 - k;
      if k < 8 then v == Starved
      else if missing <= 4 && check(Body(m))[4 - missing..] == junk[4 - missing..] then v == Deliver(k, Delivered(m))
      else v == Reject(k)
  {
    var b, c := Body(m), check(Body(m));
    BodyHeader(m);
    GoodFrame(check, m, b);
    var s := Frame(check, m)[..k];
    if k >= |b| {
      assert s == b + c[..k - |b|];
      CutCheck(check, b, c, k - |b|, junk);
    } else if k >= 8 {
      assert s == b[..k] && s[0] == b[0] && s[6] == b[6] && s[7] == b[7];
    }
  }

  lemma CutCheck(check: Check, b: seq<byte>, c: seq<byte>, k: nat, junk: seq<byte>)
    requires |b| >= HDR_SZ && HeaderOk(b) && |b| == HDR_SZ + Num16(b[6], b[7])
    requires |c| == |junk| == CRC_SZ && k < CRC_SZ && c == check(b)
    ensures Judge(check, b + c[..k], junk) ==
            if c[k..] == junk[k..] then Deliver(|b| + k, Message(b[0], Num16(b[4], b[5]), b[HDR_SZ..]))
            else Reject(|b| + k)
  {
    var s := b + c[..k];
    assert s[0] == b[0] && s[6] == b[6] && s[7] == b[7] && s[4] == b[4] && s[5] == b[5];
    assert s[..|b|] == b && s[|b|..] == c[..k] && s[HDR_SZ..|b|] == b[HDR_SZ..];
    var f := CheckField(c[..k], junk);
    assert f == c[..k] + junk[k..];
    assert c == c[..k] + c[k..];
    assert f == c <==> f[k..] == c[k..];
  }

  lemma JudgeFrame(check: Check, m: Message, junk: seq<byte>)
    requires FourBytes(check) && |junk| == CRC_SZ && Sendable(m)
    ensures Judge(check, Frame(check, m), junk) == Deliver(|Frame(check, m)|, Delivered(m))
  {
    BodyHeader(m);
    GoodFrame(check, m, Body(m));
    JudgeGood(check, Body(m), check(Body(m)), junk);
  }

  /** The loop recovers a message from its own frame exactly when channel and length are in range. */
  lemma RoundTripIffSendable(check: Check, m: Message, junk: seq<byte>)
    requires FourBytes(check) && |junk| == CRC_SZ
    ensures Judge(check, Frame(check, m), junk) == Deliver(|m.pay| + 12, Delivered(m)) <==>
            m.ch < 8 && |m.pay| <= 16384
    ensures ArrivesAs(m, Delivered(m))
  {
    BodyHeader(m);
    if Sendable(m) {
      JudgeFrame(check, m, junk);
    } else if Judge(check, Frame(check, m), junk).Deliver? {
      DeliveredBounded(check, Frame(check, m), junk);
      assert Frame(check, m)[0] == Body(m)[0];
    }
  }

  /** A frame whose check fails costs one error, and the parser is in step again at the next frame. */
  lemma BadCheckDropsOneFrame(check: Check, s: seq<byte>, g: seq<byte>, rest: seq<byte>, junk: seq<byte>, st: Stats)
    requires |junk| == CRC_SZ && |g| >= HDR_SZ + CRC_SZ && s == g + rest
    requires HeaderOk(g) && |g| == HDR_SZ + Num16(g[6], g[7]) + CRC_SZ
    requires check(g[..|g| - CRC_SZ]) != g[|g| - CRC_SZ..]
    ensures Receive(check, s, junk, st) == Receive(check, rest, junk, st.(errors := st.errors + 1))
  {
    var b, t := g[..|g| - CRC_SZ], g[|g| - CRC_SZ..];
    assert b[0] == g[0] && b[6] == g[6] && b[7] == g[7];
    assert s == b + t + rest;
    ReceiveHead(check, s, b, t, rest, junk, st);
  }
}
