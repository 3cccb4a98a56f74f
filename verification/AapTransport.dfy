/**
  usb/aap_transport.c: build_frame and the receive loop as written, with the CRC of Crc32 as
  the check at the end of a frame.
*/
module AapTransport {
  import opened AapWire
  import opened Bytes
  import opened Crc32

  lemma TagIsCheck()
    ensures FourBytes(Tag)
  {
  }

  /** Any list of sendable messages survives build_frame and the receive loop, byte for byte. */
  lemma StreamSurvives(ms: seq<Message>, junk: seq<byte>)
    requires |junk| == CRC_SZ
    requires forall i | 0 <= i < |ms| :: Sendable(ms[i])
    ensures Receive(Tag, FrameAll(Tag, ms), junk, Stats(0, 0, 0, []))
         == Stats(|FrameAll(Tag, ms)|, |ms|, 0, DeliveredAll(ms))
    ensures forall i | 0 <= i < |ms| :: ArrivesAs(ms[i], DeliveredAll(ms)[i])
  {
    TagIsCheck();
    assert FrameAll(Tag, ms) + [] == FrameAll(Tag, ms);
    StreamRoundTrip(Tag, FrameAll(Tag, ms), ms, [], junk, Stats(0, 0, 0, []));
    assert [] + DeliveredAll(ms) == DeliveredAll(ms);
  }

  /**
    A frame hit by a burst of at most four bytes that leaves it a valid channel and its length costs one
    error and nothing else: the parser is back in step at the next frame.
  */
  lemma BurstDropsOneFrame(m: Message, g: seq<byte>, at: nat, rest: seq<byte>, junk: seq<byte>, st: Stats)
    requires Sendable(m) && |junk| == CRC_SZ
    requires g != Frame(Tag, m) && AgreeOutside(Frame(Tag, m), g, at)
    requires g[0] < CH_MAX && g[6] == Frame(Tag, m)[6] && g[7] == Frame(Tag, m)[7]
    ensures Receive(Tag, g + rest, junk, st) == Receive(Tag, rest, junk, st.(errors := st.errors + 1))
  {
    var f := Frame(Tag, m);
    TagIsCheck();
    FrameShape(Tag, m);
    assert Tag(g[..|g| - CRC_SZ]) != g[|g| - CRC_SZ..] by {
      BurstBreaksSeal(f, g, at);
    }
    BadCheckDropsOneFrame(Tag, g + rest, g, rest, junk, st);
  }

  // ---------- the code ----------

  /** The bytes o with d written over them from position at on. */
  function Splice(o: seq<byte>, at: nat, d: seq<byte>): seq<byte>
    requires at + |d| <= |o|
  {
    o[..at] + d + o[at + |d|..]
  }

  /** Writing e behind d at the front of o amounts to writing both. */
  lemma SpliceBehind(o: seq<byte>, d: seq<byte>, e: seq<byte>)
    requires |d| + |e| <= |o|
    ensures Splice(d + o[|d|..], |d|, e) == d + e + o[|d + e|..]
  {
    var x := d + o[|d|..];
    assert x[..|d|] == d && x[|d| + |e|..] == o[|d| + |e|..];
  }

  lemma SplicedParts(o: seq<byte>, at: nat, d: seq<byte>)
    requires at + |d| <= |o|
    ensures var x := Splice(o, at, d); x[..at] == o[..at] && x[at..at + |d|] == d && x[at + |d|..] == o[at + |d|..]
  {
  }

  method CopyIn(out: array<byte>, at: nat, d: seq<byte>)
    requires at + |d| <= out.Length
    modifies out
    ensures out[..] == Splice(old(out[..]), at, d)
  {
    ghost var o := out[..];
    forall i | 0 <= i < |d| {
      out[at + i] := d[i];
    }
    assert out[..at] == o[..at] && out[at..at + |d|] == d && out[at + |d|..] == o[at + |d|..];
  }

  /** The header of build_frame byte by byte, at the front of o. */
  predicate HeaderOut(o: seq<byte>, ch: byte, flags: uint16, plen: nat) {
    && |o| >= 8 && o[0] == ch && o[1] == o[2] == o[3] == 0
    && o[4] as int + 256 * (o[5] as int) == flags - flags % 4 + 3
    && (plen < 65536 ==> o[6] as int + 256 * (o[7] as int) == plen)
  }

  /** Behind the header come the payload and the checksum of both. */
  predicate LaidOut(o: seq<byte>, ch: byte, flags: uint16, pay: seq<byte>) {
    && |o| >= 12 + |pay| && HeaderOut(o, ch, flags, |pay|)
    && o[8..8 + |pay|] == pay && o[8 + |pay|..12 + |pay|] == WordBytes(RfcCrc(o[..8 + |pay|]))
  }

  lemma HeaderBytes(ch: byte, flags: uint16, plen: nat)
    ensures HeaderOut(Header(ch, OrThree(flags), plen), ch, flags, plen) && |Header(ch, OrThree(flags), plen)| == 8
  {
  }

  lemma HeaderFirst(h: seq<byte>, rest: seq<byte>, ch: byte, flags: uint16, plen: nat)
    requires |h| == 8 && HeaderOut(h, ch, flags, plen)
    ensures HeaderOut(h + rest, ch, flags, plen)
  {
  }

  lemma FourParts(o: seq<byte>, h: seq<byte>, p: seq<byte>, t: seq<byte>, rest: seq<byte>)
    requires o == h + p + t + rest
    ensures o[..|h| + |p|] == h + p && o == h + (p + t + rest)
    ensures o[|h|..|h| + |p|] == p && o[|h| + |p|..|h| + |p| + |t|] == t
  {
    assert o == h + (p + t + rest);
    assert o == (h + p) + (t + rest);
  }

  lemma FrameLaidOut(o: seq<byte>, h: seq<byte>, ch: byte, flags: uint16, pay: seq<byte>, rest: seq<byte>)
    requires h == Header(ch, OrThree(flags), |pay|) && o == h + pay + WordBytes(RfcCrc(h + pay)) + rest
    ensures LaidOut(o, ch, flags, pay)
  {
    HeaderBytes(ch, flags, |pay|);
    var t := WordBytes(RfcCrc(h + pay));
    FourParts(o, h, pay, t, rest);
    HeaderFirst(h, pay + t + rest, ch, flags, |pay|);
  }

  method BuildFrame(out: array<byte>, ch: byte, flags: uint16, pay: array<byte>, plen: nat) returns (n: nat)
    requires plen <= pay.Length && HDR_SZ + plen + CRC_SZ <= out.Length && out != pay
    modifies out
    ensures n == HDR_SZ + plen + CRC_SZ
    ensures out[..n] == Frame(Tag, Message(ch, flags, pay[..plen]))
    ensures out[n..] == old(out[n..])
    ensures LaidOut(out[..], ch, flags, pay[..plen])
  {
    ghost var m, o := Message(ch, flags, pay[..plen]), out[..];
    var h, p := Header(ch, OrThree(flags), plen), pay[..plen];
    CopyIn(out, 0, h);
    assert out[..] == h + o[|h|..];
    CopyIn(out, HDR_SZ, p);
    SpliceBehind(o, h, p);
    assert out[..HDR_SZ + plen] == out[..][..HDR_SZ + plen] == Body(m);
    var crc := Crc32b(out, HDR_SZ + plen);
    CopyIn(out, HDR_SZ + plen, WordBytes(crc));
    SpliceBehind(o, h + p, WordBytes(crc));
    n := HDR_SZ + plen + CRC_SZ;
    assert out[..n] == out[..][..n] && out[n..] == out[..][n..];
    FrameLaidOut(out[..], h, ch, flags, p, o[n..]);
  }

  class Receiver {
    var input: seq<byte>       // bytes the endpoint still holds
    const buf: array<byte>
    const junk: seq<byte>      // what the uninitialised checksum variable happens to hold
    var rxBytes: nat
    var rxFrames: nat
    var errors: nat
    var log: seq<Message>      // arguments handed to dispatch

    ghost predicate Valid() {
      buf.Length == MAX_FRAME + 64 && |junk| == CRC_SZ
    }

    ghost function Totals(): Stats
      reads this
    {
      Stats(rxBytes, rxFrames, errors, log)
    }

    constructor (stream: seq<byte>, junk: seq<byte>)
      requires |junk| == CRC_SZ
      ensures Valid() && fresh(buf)
      ensures input == stream && this.junk == junk && Totals() == Stats(0, 0, 0, [])
    {
      input, this.junk := stream, junk;
      buf := new byte[MAX_FRAME + 64];
      rxBytes, rxFrames, errors, log := 0, 0, 0, [];
    }

    /** usb_bulk_read on an endpoint that holds input: as many bytes as asked for, or all there are. */
    method BulkRead(at: nat, len: nat) returns (n: nat)
      requires at + len <= buf.Length
      modifies this`input, buf
      ensures n == if |old(input)| < len then |old(input)| else len
      ensures input == old(input)[n..]
      ensures buf[..at] == old(buf[..at]) && buf[at..at + n] == old(input)[..n] && buf[at + n..] == old(buf[at + n..])
    {
      n := if |input| < len then |input| else len;
      ghost var o := buf[..];
      CopyIn(buf, at, input[..n]);
      SplicedParts(o, at, input[..n]);
      assert buf[..at] == buf[..][..at] && buf[at..at + n] == buf[..][at..at + n] && buf[at + n..] == buf[..][at + n..];
      input := input[n..];
    }

    method BulkReadWord() returns (w: seq<byte>)
      requires Valid()
      modifies this`input
      ensures w == CheckField(old(input), junk)
      ensures input == if |old(input)| < CRC_SZ then [] else old(input)[CRC_SZ..]
    {
      w := CheckField(input, junk);
      input := if |input| < CRC_SZ then [] else input[CRC_SZ..];
    }

    method RxOnce()
      requires Valid()
      modifies this`input, this`rxBytes, this`rxFrames, this`errors, this`log, buf
      ensures input == old(input)[Used(old(input), Judge(Tag, old(input), junk))..]
      ensures Totals() == Count(old(Totals()), Judge(Tag, old(input), junk))
    {
      ghost var s := input;
      var got := RxHeader();
      if !got {
        return;
      }
      var ch, plen := buf[0], Num16(buf[6], buf[7]);
      if plen > MAX_FRAME || ch >= CH_MAX {
        errors := errors + 1;
        return;
      }
      RxBody(ch, plen, s);
    }

    method RxHeader() returns (got: bool)
      requires Valid()
      modifies this`input, buf
      ensures got == (|old(input)| >= HDR_SZ)
      ensures !got ==> input == []
      ensures got ==> input == old(input)[HDR_SZ..] && buf[..HDR_SZ] == old(input)[..HDR_SZ]
      ensures got ==> buf[0] == old(input)[0] && buf[6] == old(input)[6] && buf[7] == old(input)[7]
    {
      ghost var s := input;
      var n := BulkRead(0, HDR_SZ);
      got := n >= HDR_SZ;
      if got {
        assert buf[..HDR_SZ] == buf[0..HDR_SZ] == s[..HDR_SZ];
        assert forall k | 0 <= k < HDR_SZ :: buf[k] == buf[..HDR_SZ][k] == s[k];
      }
    }

    /** The rest of a turn whose header is in the buffer and was accepted; s is the input it started from. */
    method RxBody(ch: byte, plen: nat, ghost s: seq<byte>)
      requires Valid() && plen <= MAX_FRAME
      requires |s| >= HDR_SZ && buf[..HDR_SZ] == s[..HDR_SZ] && input == s[HDR_SZ..] && ch == s[0]
      modifies this`input, this`rxBytes, this`rxFrames, this`errors, this`log, buf
      ensures input == s[Used(s, JudgeBody(Tag, s, HDR_SZ + plen, junk))..]
      ensures Totals() == Count(old(Totals()), JudgeBody(Tag, s, HDR_SZ + plen, junk))
    {
      var got := RxPayload(plen, s);
      if !got {
        errors := errors + 1;
        return;
      }
      var computed := Crc32b(buf, HDR_SZ + plen);
      assert buf[..HDR_SZ + plen] == s[..HDR_SZ + plen];
      Settle(ch, plen, WordBytes(computed), Tag, s);
    }

    /** Compare the computed check bytes with those on the wire, and count or complain. */
    method Settle(ch: byte, plen: nat, computed: seq<byte>, ghost check: Check, ghost s: seq<byte>)
      requires Valid() && plen <= MAX_FRAME && HDR_SZ + plen <= |s|
      requires buf[..HDR_SZ + plen] == s[..HDR_SZ + plen] && input == s[HDR_SZ + plen..] && ch == s[0]
      requires computed == check(s[..HDR_SZ + plen])
      modifies this`input, this`rxBytes, this`rxFrames, this`errors, this`log
      ensures input == s[Used(s, JudgeBody(check, s, HDR_SZ + plen, junk))..]
      ensures Totals() == Count(old(Totals()), JudgeBody(check, s, HDR_SZ + plen, junk))
    {
      var rxc := BulkReadWord();
      if computed != rxc {
        errors := errors + 1;
        return;
      }
      rxBytes := rxBytes + HDR_SZ + plen + CRC_SZ;
      rxFrames := rxFrames + 1;
      assert buf[HDR_SZ..HDR_SZ + plen] == s[HDR_SZ..HDR_SZ + plen];
      log := log + [Message(ch, Num16(buf[4], buf[5]), buf[HDR_SZ..HDR_SZ + plen])];
    }

    method RxPayload(plen: nat, ghost s: seq<byte>) returns (got: bool)
      requires Valid() && plen <= MAX_FRAME
      requires |s| >= HDR_SZ && buf[..HDR_SZ] == s[..HDR_SZ] && input == s[HDR_SZ..]
      modifies this`input, buf
      ensures got == (HDR_SZ + plen <= |s|)
      ensures !got ==> input == []
      ensures got ==> input == s[HDR_SZ + plen..] && buf[..HDR_SZ + plen] == s[..HDR_SZ + plen]
    {
      got := true;
      if plen > 0 {
        var n := BulkRead(HDR_SZ, plen);
        got := n >= plen;
        if got {
          assert buf[..HDR_SZ + plen] == buf[..HDR_SZ] + buf[HDR_SZ..HDR_SZ + plen];
          assert s[..HDR_SZ + plen] == s[..HDR_SZ] + s[HDR_SZ..][..plen];
        }
      }
    }

    method Drain()
      requires Valid()
      modifies this`input, this`rxBytes, this`rxFrames, this`errors, this`log, buf
      ensures input == []
      ensures Totals() == Receive(Tag, old(input), junk, old(Totals()))
    {
      while input != []
        invariant Receive(Tag, input, junk, Totals()) == Receive(Tag, old(input), junk, old(Totals()))
        decreases |input|
      {
        RxOnce();
      }
    }
  }
}
