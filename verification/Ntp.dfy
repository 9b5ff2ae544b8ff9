/**
 * The NTP client of time.cpp: it builds the 48-byte client request of
 * RFC 5905 (section 7.3), waits for the reply with at most 101 polls and
 * 100 delays of 100 ms,
 * extracts the transmit-timestamp seconds and shifts them to the Unix epoch.
 *
 * The UDP socket is an oracle: `arrivals[k]` is what the k-th call of
 * `parsePacket` reports (a call past the end of the sequence reports nothing),
 * and `reply` is the datagram that `read` copies into the packet buffer.
 */
module Ntp {
  import opened CArith

  const NTP_PKG_SIZE: int := 48
  /** The retry budget of getOfficialTime: the number of 100 ms delays it allows. */
  const RETRIES: int := 100
  /** Seconds from 1900-01-01 (the NTP epoch) to 1970-01-01 (the Unix epoch). */
  const SEVENTY_YEARS: uint32 := 2208988800

  /** First byte of an NTP header: leap indicator (2 bits), version (3 bits), mode (3 bits). */
  function HeaderByte(leap: int, version: int, mode: int): (b: byte)
    requires 0 <= leap < 4 && 0 <= version < 8 && 0 <= mode < 8
    ensures b / 64 == leap && b / 8 % 8 == version && b % 8 == mode
  {
    leap * 64 + version * 8 + mode
  }

  /** The request datagram the client sends. */
  function RequestPacket(): (p: seq<byte>)
    ensures |p| == NTP_PKG_SIZE
    ensures p[0] == HeaderByte(3, 4, 3) && p[1] == 0 && p[2] == 6 && p[3] == 0xEC
    ensures p[12] == 49 && p[13] == 0x4E && p[14] == 49 && p[15] == 52
    ensures forall i :: 4 <= i < 12 || 16 <= i < NTP_PKG_SIZE ==> p[i] == 0
  {
    [0xE3, 0, 6, 0xEC, 0, 0, 0, 0, 0, 0, 0, 0, 49, 0x4E, 49, 52] + seq(32, _ => 0)
  }

  /** Whether the k-th poll (from 0) finds a datagram. */
  predicate Arrived(arrivals: seq<bool>, k: int)
  {
    0 <= k < |arrivals| && arrivals[k]
  }

  /**
   * The buffer after `read(buffer, 48)`: the datagram's leading bytes, at most
   * 48 of them, overwrite the buffer; the rest of the buffer is left as it was.
   */
  function AfterRead(buffer: seq<byte>, reply: seq<byte>): (r: seq<byte>)
    requires |buffer| == NTP_PKG_SIZE
    ensures |r| == NTP_PKG_SIZE
    ensures forall i :: 0 <= i < NTP_PKG_SIZE ==> r[i] == if i < |reply| then reply[i] else buffer[i]
  {
    var n := if |reply| < NTP_PKG_SIZE then |reply| else NTP_PKG_SIZE;
    reply[..n] + buffer[n..]
  }

  /** Energia's `word(h, l)`, that is `(h << 8) | l`: the big-endian 16-bit value of two bytes. */
  function Word(h: byte, l: byte): (w: uint16)
    ensures w == h as int * 0x100 + l as int
  {
    Pow2Values();
    BitOrDisjoint(h, l, 8);
    BitOr(h * Pow2(8), l)
  }

  /**
   * `high_word << 16 | low_word` over bytes 40..43 of the buffer: the seconds
   * field of the transmit timestamp, read big-endian.
   */
  function TransmitSeconds(p: seq<byte>): (secs: uint32)
    requires |p| == NTP_PKG_SIZE
    ensures secs == p[40] as int * 0x100_0000 + p[41] as int * 0x1_0000 + p[42] as int * 0x100 + p[43] as int
  {
    var highWord := Word(p[40], p[41]);
    var lowWord := Word(p[42], p[43]);
    Pow2Values();
    assert Shl32(highWord, 16) == highWord * Pow2(16);
    BitOrDisjoint(highWord, lowWord, 16);
    BitOr(Shl32(highWord, 16), lowWord)
  }

  /**
   * getUnixTime's `ntp - SEVENTY_YEARS` on uint32_t: exact from 1970 on, wrapped
   * modulo 2^32 below it; adding the offset back modulo 2^32 recovers the input.
   */
  function UnixTime(ntpSeconds: uint32): (unix: uint32)
    ensures ntpSeconds >= SEVENTY_YEARS ==> unix == ntpSeconds - SEVENTY_YEARS
    ensures ntpSeconds < SEVENTY_YEARS ==> unix == ntpSeconds + (TWO_TO_32 - SEVENTY_YEARS)
    ensures (unix + SEVENTY_YEARS) % TWO_TO_32 == ntpSeconds
  {
    Sub32(ntpSeconds, SEVENTY_YEARS)
  }

  /**
   * When `read` copies nothing, the buffer still holds the request, whose
   * transmit field is zero: the seconds are 0 and the Unix time wraps to
   * 2^32 - 2208988800 instead of signalling that no reply came.
   */
  lemma NoReplyTime()
    ensures TransmitSeconds(AfterRead(RequestPacket(), [])) == 0
    ensures UnixTime(TransmitSeconds(AfterRead(RequestPacket(), []))) == 2085978496
  {
    var p := RequestPacket();
    assert AfterRead(p, []) == p;
    assert p[40] == 0 && p[41] == 0 && p[42] == 0 && p[43] == 0;
  }

  /** Lines 26-38 of getOfficialTime: zero the buffer, then set the header and reference bytes. */
  method FillRequest(packetBuffer: array<byte>)
    requires packetBuffer.Length == NTP_PKG_SIZE
    modifies packetBuffer
    ensures packetBuffer[..] == RequestPacket()
  {
    forall i | 0 <= i < packetBuffer.Length {
      packetBuffer[i] := 0;
    }
    packetBuffer[0] := 0xE3;  // 0b11100011: leap indicator 3 (unsynchronised), version 4, mode 3 (client)
    packetBuffer[1] := 0;     // stratum
    packetBuffer[2] := 6;     // polling interval
    packetBuffer[3] := 0xEC;  // precision
    packetBuffer[12] := 49;
    packetBuffer[13] := 0x4E;
    packetBuffer[14] := 49;
    packetBuffer[15] := 52;
    assert forall i :: 0 <= i < NTP_PKG_SIZE ==> packetBuffer[..][i] == RequestPacket()[i];
  }

  /**
   * The wait loop of getOfficialTime: poll, and while nothing has arrived and
   * the budget lasts, delay and spend one retry.  `waits` is the number of
   * delays: the index of the first poll that finds a datagram, capped at 100.
   * `polls` counts the calls of `parsePacket`: the poll is the left operand of
   * `&&`, so it runs once more after the last delay, also when the budget is
   * spent.
   */
  method AwaitReply(arrivals: seq<bool>) returns (waits: nat, polls: nat)
    ensures waits <= RETRIES && polls == waits + 1
    ensures forall j :: 0 <= j < waits ==> !Arrived(arrivals, j)
    ensures waits < RETRIES ==> Arrived(arrivals, waits)
  {
    var retries := RETRIES;
    polls := 1;
    while !Arrived(arrivals, polls - 1) && retries > 0
      invariant 0 <= retries <= RETRIES && polls == RETRIES - retries + 1
      invariant forall j :: 0 <= j < polls - 1 ==> !Arrived(arrivals, j)
    {
      retries := retries - 1;
      polls := polls + 1;
    }
    waits := RETRIES - retries;
  }

  /** `read(packetBuffer, 48)`: copy the datagram's leading bytes into the buffer. */
  method ReadReply(packetBuffer: array<byte>, reply: seq<byte>)
    requires packetBuffer.Length == NTP_PKG_SIZE
    modifies packetBuffer
    ensures packetBuffer[..] == AfterRead(old(packetBuffer[..]), reply)
  {
    var n := if |reply| < NTP_PKG_SIZE then |reply| else NTP_PKG_SIZE;
    forall i | 0 <= i < n {
      packetBuffer[i] := reply[i];
    }
    assert forall i :: 0 <= i < NTP_PKG_SIZE ==> packetBuffer[..][i] == AfterRead(old(packetBuffer[..]), reply)[i];
  }

  /**
   * getOfficialTime: sends the request, waits for a datagram or the end of the
   * budget, reads the buffer and returns the transmit seconds.  `sent` is what
   * was handed to `write`; `waits` counts the 100 ms delays and `polls` the
   * calls of `parsePacket`.
   */
  method GetOfficialTime(arrivals: seq<bool>, reply: seq<byte>)
    returns (secs: uint32, sent: seq<byte>, waits: nat, polls: nat)
    ensures sent == RequestPacket()
    ensures waits <= RETRIES && polls == waits + 1
    ensures forall j :: 0 <= j < waits ==> !Arrived(arrivals, j)
    ensures waits < RETRIES ==> Arrived(arrivals, waits)
    ensures secs == TransmitSeconds(AfterRead(sent, reply))
    ensures |reply| >= 44 ==> secs == reply[40] as int * 0x100_0000 + reply[41] as int * 0x1_0000 + reply[42] as int * 0x100 + reply[43] as int
  {
    var packetBuffer := new byte[NTP_PKG_SIZE];
    FillRequest(packetBuffer);
    sent := packetBuffer[..];
    waits, polls := AwaitReply(arrivals);
    ReadReply(packetBuffer, reply);
    secs := TransmitSeconds(packetBuffer[..]);
  }

  /** getUnixTime: the official time moved to the Unix epoch. */
  method GetUnixTime(arrivals: seq<bool>, reply: seq<byte>) returns (unix: uint32)
    ensures unix == UnixTime(TransmitSeconds(AfterRead(RequestPacket(), reply)))
  {
    var ntpSeconds, _, _, _ := GetOfficialTime(arrivals, reply);
    unix := UnixTime(ntpSeconds);
  }
}
