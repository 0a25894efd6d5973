/**
 * The arithmetic and the per-call behaviour of the ApolloOS (Serbian eID)
 * driver, as values: how a read is clamped and addressed, how the size probe
 * decodes its answer, and what one serial-number query does to the cache.
 * The classes in module ApolloOsDriver are proved against these functions.
 */
module ApolloOs {
  import opened Wrappers
  import opened Iso7816

  /** The card puts a 6-byte header in front of every transparent file. */
  const HeaderLen: nat := 6
  /** The size probe reads the whole header. */
  const ProbeLen: nat := 6
  /** GET DATA for the serial number asks for 32 bytes and keeps 16. */
  const SerialBufLen: nat := 32
  const SerialLen: nat := 16
  /** SC_MAX_SERIALNR: capacity of `sc_serial_number.value`. */
  const SerialMax: nat := 32
  /** The card's largest single response, set by init. */
  const ApolloMaxRecvSize: nat := 255
  /** SC_ERROR_NOT_SUPPORTED. */
  const NotSupported: int := -1408
  /** SC_CARDCTL_GET_SERIALNR. */
  const CardCtlGetSerialNr: nat := 5

  // ---------------------------------------------------------------------
  // READ BINARY: clamping and addressing

  /** What the read adapter decides before talking to the card. */
  datatype Plan = Skip | Send(count: nat)

  /**
   * The clamp of `apolloos_read_binary`: `idx` is the logical offset (an
   * `unsigned int`), `count` the requested length and `fileSize` the cached
   * size (both `size_t`, so `count + idx` wraps modulo 2^64).
   */
  function ReadPlan(idx: nat, count: nat, fileSize: nat): (r: Plan)
    requires idx < UIntMod && count < SizeMod && fileSize < SizeMod
    // clamping never asks for more than the caller did
    ensures r.Send? ==> r.count <= count
    // at offset 0 the count is min(count, fileSize)
    ensures idx == 0 ==> r == Send(Min(count, fileSize))
    // without wrap-around: every read sent stays inside the file, and is as long as it can be
    ensures idx + count < SizeMod && r.Send? ==>
              idx + r.count <= fileSize && r.count == Min(count, fileSize - idx)
    // without wrap-around: nothing is sent exactly when a non-zero offset starts past the
    // end, or at the end with something to read (a zero count at the end is still sent)
    ensures idx + count < SizeMod ==>
              (r.Skip? <==> idx != 0 && fileSize <= idx && fileSize < idx + count)
    // with wrap-around the comparison sees the wrapped sum and the count is never clamped
    ensures idx != 0 && SizeMod <= idx + count ==>
              (r.Skip? <==> fileSize < idx + count - SizeMod) && (r.Send? ==> r.count == count)
  {
    if idx == 0 then
      if fileSize < count then Send(fileSize) else Send(count)
    else if fileSize < (count + idx) % SizeMod then
      if idx < fileSize then Send(fileSize - idx) else Skip
    else
      Send(count)
  }

  /**
   * The READ BINARY command for logical offset `idx`: the offset is moved past
   * the header in an `unsigned int` and its low 16 bits become P1 and P2.
   */
  function ReadCommand(idx: nat, count: nat): (c: Command)
    requires idx < UIntMod
    ensures c.ins == InsReadBinary && c.le == count
  {
    var at := (idx + HeaderLen) % UIntMod;
    Command(InsReadBinary, ((at / 256) % 256) as Byte, (at % 256) as Byte, count)
  }

  lemma SixteenBits(x: nat)
    ensures ((x / 256) % 256) * 256 + x % 256 == x % 0x1_0000
  {
    var q := x / 0x1_0000;
    var m := x % 0x1_0000;
    assert x == q * 0x1_0000 + m;
    assert x / 256 == q * 256 + m / 256;
    assert x % 256 == m % 256;
    assert (x / 256) % 256 == m / 256;
  }

  /**
   * The command addresses the logical offset plus the header, truncated to 16
   * bits; P1 gets bit 8 set, so P1 names a short EF identifier and P1-P2 is
   * no longer a 15-bit offset, exactly when that truncated address is 0x8000
   * or more.
   */
  lemma {:induction false} ReadCommandAddress(idx: nat, count: nat)
    requires idx < UIntMod
    ensures var c := ReadCommand(idx, count);
            c.p1 as nat * 256 + c.p2 as nat == (idx + HeaderLen) % 0x1_0000
    ensures var c := ReadCommand(idx, count);
            (OffsetOf(c).Some? <==> (idx + HeaderLen) % 0x1_0000 < 0x8000) &&
            (OffsetOf(c).Some? ==> OffsetOf(c).value == (idx + HeaderLen) % 0x1_0000)
    ensures idx + HeaderLen < 0x8000 ==> OffsetOf(ReadCommand(idx, count)) == Some(idx + HeaderLen)
  {
    var at := (idx + HeaderLen) % UIntMod;
    SixteenBits(at);
    assert at % 0x1_0000 == (idx + HeaderLen) % 0x1_0000 by {
      var k := (idx + HeaderLen) / UIntMod;
      assert idx + HeaderLen == k * UIntMod + at;
      assert k * UIntMod == (k * 0x1_0000) * 0x1_0000;
    }
  }

  // ---------------------------------------------------------------------
  // The size probe

  /** READ BINARY at offset 0 for the 6 header bytes. */
  const ProbeCommand: Command := Command(InsReadBinary, 0, 0, ProbeLen)

  /**
   * `get_file_size`: `stale` is what the 6-byte receive buffer held before the
   * exchange, since the response length is never checked. A transport error
   * is returned as a `size_t`, a bad status word gives 0, and otherwise the
   * size is bytes 4 (low) and 5 (high) of the buffer.
   */
  function ProbeSize(resp: Response, stale: seq<Byte>, checkSw: (Byte, Byte) -> int): (size: nat)
    requires |stale| == ProbeLen
    ensures size < SizeMod
    ensures resp.transport < 0 ==>
              size == SizeMod + resp.transport && SizeMod - 0x8000_0000 <= size
    ensures 0 <= resp.transport && checkSw(resp.sw1, resp.sw2) != Success ==> size == 0
    ensures 0 <= resp.transport && checkSw(resp.sw1, resp.sw2) == Success ==> size < 0x1_0000
  {
    if resp.transport < 0 then
      resp.transport % SizeMod
    else if checkSw(resp.sw1, resp.sw2) != Success then
      0
    else
      var buf := Received(resp.data, stale);
      buf[5] as nat * 256 + buf[4] as nat
  }

  /** A 6-byte header as the card stores it: four bytes, then the size little-endian. */
  function SizeHeader(lead: seq<Byte>, size: nat): (h: seq<Byte>)
    requires |lead| == 4 && size < 0x1_0000
    ensures |h| == ProbeLen && h[..4] == lead
    ensures h[4] as nat == size % 256 && h[5] as nat == size / 256
  {
    lead + [(size % 256) as Byte, (size / 256) as Byte]
  }

  /** The probe reads back the size a header stores, whatever the stale buffer held. */
  lemma {:induction false} ProbeReadsHeaderSize(lead: seq<Byte>, size: nat, sw1: Byte, sw2: Byte,
                                                stale: seq<Byte>, checkSw: (Byte, Byte) -> int)
    requires |lead| == 4 && size < 0x1_0000 && |stale| == ProbeLen
    requires checkSw(sw1, sw2) == Success
    ensures ProbeSize(Response(0, sw1, sw2, SizeHeader(lead, size)), stale, checkSw) == size
  {
    var h := SizeHeader(lead, size);
    var buf := Received(h, stale);
    assert buf[4] == h[4] && buf[5] == h[5];
  }

  /**
   * Conversely, the first 6 bytes of any answer at least that long are the
   * header of the size the probe decodes.
   */
  lemma {:induction false} HeaderOfProbedSize(data: seq<Byte>, sw1: Byte, sw2: Byte,
                                              stale: seq<Byte>, checkSw: (Byte, Byte) -> int)
    requires ProbeLen <= |data| && |stale| == ProbeLen
    requires checkSw(sw1, sw2) == Success
    ensures SizeHeader(data[..4], ProbeSize(Response(0, sw1, sw2, data), stale, checkSw)) == data[..ProbeLen]
  {
    var buf := Received(data, stale);
    assert buf[4] == data[4] && buf[5] == data[5];
    var size := ProbeSize(Response(0, sw1, sw2, data), stale, checkSw);
    assert size == data[5] as nat * 256 + data[4] as nat;
    var h := SizeHeader(data[..4], size);
    assert h[4] == data[4] && h[5] == data[5];
    assert h == data[..ProbeLen];
  }

  /**
   * The probe never checks how much the card sent: an answer of at most four
   * bytes with a good status word leaves bytes 4 and 5 of the receive buffer
   * as they were, and the size is read from those stale bytes.
   */
  lemma {:induction false} ShortProbeReadsStaleBytes(data: seq<Byte>, sw1: Byte, sw2: Byte,
                                                     stale: seq<Byte>, checkSw: (Byte, Byte) -> int)
    requires |data| <= 4 && |stale| == ProbeLen && checkSw(sw1, sw2) == Success
    ensures ProbeSize(Response(0, sw1, sw2, data), stale, checkSw) == stale[5] as nat * 256 + stale[4] as nat
  {
    var buf := Received(data, stale);
    assert buf[4] == stale[4] && buf[5] == stale[5];
  }

  /**
   * A 5-byte answer with a good status word mixes the two: the low byte of
   * the size is fresh, the high byte is whatever the receive buffer held.
   */
  lemma {:induction false} FiveByteProbeMixesBytes(data: seq<Byte>, sw1: Byte, sw2: Byte,
                                                   stale: seq<Byte>, checkSw: (Byte, Byte) -> int)
    requires |data| == 5 && |stale| == ProbeLen && checkSw(sw1, sw2) == Success
    ensures ProbeSize(Response(0, sw1, sw2, data), stale, checkSw) == stale[5] as nat * 256 + data[4] as nat
  {
    var buf := Received(data, stale);
    assert buf[4] == data[4] && buf[5] == stale[5];
  }

  /**
   * A probe that fails in the transport leaves a size of nearly 2^64, so a
   * later read of at most 255 bytes is sent unclamped at any offset.
   */
  lemma ProbeFailureDisablesClamp(resp: Response, stale: seq<Byte>, checkSw: (Byte, Byte) -> int,
                                  idx: nat, count: nat)
    requires |stale| == ProbeLen && resp.transport < 0
    requires idx < UIntMod && count <= ApolloMaxRecvSize
    ensures ReadPlan(idx, count, ProbeSize(resp, stale, checkSw)) == Send(count)
  {
  }

  /**
   * A file of 40000 bytes (a size the probe can report) read at offset 32762:
   * the clamp lets the read through, but the address 32768 sets bit 8 of P1,
   * so P1 names a short EF identifier and P1-P2 is no 15-bit offset.
   */
  lemma OffsetLimitReachable(lead: seq<Byte>, sw1: Byte, sw2: Byte, stale: seq<Byte>,
                             checkSw: (Byte, Byte) -> int)
    requires |lead| == 4 && |stale| == ProbeLen && checkSw(sw1, sw2) == Success
    ensures var size := ProbeSize(Response(0, sw1, sw2, SizeHeader(lead, 40000)), stale, checkSw);
            ReadPlan(32762, 16, size) == Send(16) &&
            OffsetOf(ReadCommand(32762, 16)) == None
  {
    ProbeReadsHeaderSize(lead, 40000, sw1, sw2, stale, checkSw);
    assert ReadPlan(32762, 16, 40000) == Send(16);
    assert (32762 + HeaderLen) % UIntMod == 0x8000;
    assert ReadCommand(32762, 16).p1 == 0x80;
  }

  /**
   * A header ending in 10 00 gives a 16-byte file; a read of 20 bytes at
   * offset 10 is cut to 6 and addressed at 16, past the header.
   */
  lemma SixteenByteFile(lead: seq<Byte>, sw1: Byte, sw2: Byte, stale: seq<Byte>,
                        checkSw: (Byte, Byte) -> int)
    requires |lead| == 4 && |stale| == ProbeLen && checkSw(sw1, sw2) == Success
    ensures var size := ProbeSize(Response(0, sw1, sw2, lead + [0x10, 0x00]), stale, checkSw);
            size == 16 && ReadPlan(10, 20, size) == Send(6) &&
            ReadCommand(10, 6) == Command(InsReadBinary, 0x00, 0x10, 6)
  {
    assert lead + [0x10, 0x00] == SizeHeader(lead, 16);
    ProbeReadsHeaderSize(lead, 16, sw1, sw2, stale, checkSw);
  }

  // ---------------------------------------------------------------------
  // A whole read

  /** What a read returns, which commands it sent and which bytes it copied to the caller. */
  datatype ReadOutcome = ReadOutcome(result: int, sent: seq<Command>, copied: seq<Byte>)

  /**
   * `apolloos_read_binary` as a value: the transport's answer is `resp`, of
   * which at most Le bytes land in the receive buffer.
   */
  function ReadBinaryOutcome(idx: nat, count: nat, fileSize: nat, resp: Response,
                             checkSw: (Byte, Byte) -> int): (o: ReadOutcome)
    requires idx < UIntMod && count < SizeMod && fileSize < SizeMod
    // a command is sent unless the clamp decides to skip, and it is the clamped READ BINARY
    ensures o.sent == [] <==> ReadPlan(idx, count, fileSize).Skip?
    ensures o.sent != [] ==> o.sent == [ReadCommand(idx, ReadPlan(idx, count, fileSize).count)]
    // a skipped read returns 0 bytes and no error
    ensures o.sent == [] ==> o.result == 0 && o.copied == []
    // bytes are copied only from the card's answer, never more than asked for
    ensures |o.copied| <= count && o.copied <= resp.data
    ensures o.copied != [] ==> o.result == |o.copied| && 0 <= resp.transport
    // without wrap-around the copied bytes never extend past the cached size
    ensures idx + count < SizeMod && o.copied != [] ==> idx + |o.copied| <= fileSize
    // a sent read whose transport succeeds copies as much of the answer as Le allows
    ensures o.sent != [] && 0 <= resp.transport ==>
              o.copied == resp.data[..Min(|resp.data|, ReadPlan(idx, count, fileSize).count)]
    // no bytes after a sent command: the transport error, else the status-word verdict
    ensures o.sent != [] && o.copied == [] ==>
              o.result == if resp.transport < 0 then resp.transport as int
                          else checkSw(resp.sw1, resp.sw2)
  {
    match ReadPlan(idx, count, fileSize)
    case Skip => ReadOutcome(0, [], [])
    case Send(n) =>
      var cmd := ReadCommand(idx, n);
      if resp.transport < 0 then
        ReadOutcome(resp.transport as int, [cmd], [])
      else
        var got := Min(|resp.data|, n);
        if got == 0 then ReadOutcome(checkSw(resp.sw1, resp.sw2), [cmd], [])
        else ReadOutcome(got, [cmd], resp.data[..got])
  }

  // ---------------------------------------------------------------------
  // The serial-number cache

  /** `sc_serial_number`: a 32-byte value of which the first `len` bytes count. */
  datatype SerialNumber = SerialNumber(value: seq<Byte>, len: nat)

  /** The serial number of a freshly connected card: zeroed, empty. */
  function NoSerial(): (sn: SerialNumber)
    ensures |sn.value| == SerialMax && sn.len == 0
  {
    SerialNumber(seq(SerialMax, i => 0), 0)
  }

  /** GET DATA with P1-P2 = 01 01, asking for 32 bytes. */
  const SerialCommand: Command := Command(InsGetData, 0x01, 0x01, SerialBufLen)

  /** What one serial-number query returns, leaves in the cache, copies out and sends. */
  datatype SerialOutcome =
    SerialOutcome(result: int, serialnr: SerialNumber, copy: Option<SerialNumber>, sent: seq<Command>)

  /**
   * `apolloos_get_serialnr` as a value: `sn` is the card's cache, `wantCopy`
   * whether the caller passed a buffer, `stale` what the 32-byte receive buffer
   * held before the exchange (the response length is never checked).
   */
  function GetSerialStep(sn: SerialNumber, wantCopy: bool, resp: Response, stale: seq<Byte>,
                         checkSw: (Byte, Byte) -> int): (o: SerialOutcome)
    requires |sn.value| == SerialMax && |stale| == SerialBufLen
    ensures |o.serialnr.value| == SerialMax
    // GET DATA goes out only while the cache is empty
    ensures o.sent == (if sn.len == 0 then [SerialCommand] else [])
    // success exactly when the cache ends up filled
    ensures o.result == Success <==> o.serialnr.len != 0
    // a cached value is kept and returned
    ensures sn.len != 0 ==> o.serialnr == sn
    // a failure is the transport's error or the status-word verdict, and changes nothing
    // on an empty cache, the query succeeds exactly when the transport and the status word do
    ensures sn.len == 0 ==>
              (o.result == Success <==> 0 <= resp.transport && checkSw(resp.sw1, resp.sw2) == Success)
    ensures o.result != Success ==>
              o.serialnr == sn && o.copy == None &&
              o.result == if resp.transport < 0 then resp.transport as int
                          else checkSw(resp.sw1, resp.sw2)
    // a fresh fetch stores 16 bytes of the receive buffer and keeps the rest of the value
    ensures sn.len == 0 && o.result == Success ==>
              o.serialnr.len == SerialLen &&
              o.serialnr.value[..SerialLen] == Received(resp.data, stale)[..SerialLen] &&
              o.serialnr.value[SerialLen..] == sn.value[SerialLen..]
    // every success copies the whole cache out when asked
    ensures o.result == Success ==> o.copy == if wantCopy then Some(o.serialnr) else None
  {
    if sn.len == 0 then
      if resp.transport < 0 then
        SerialOutcome(resp.transport as int, sn, None, [SerialCommand])
      else if checkSw(resp.sw1, resp.sw2) != Success then
        SerialOutcome(checkSw(resp.sw1, resp.sw2), sn, None, [SerialCommand])
      else
        var buf := Received(resp.data, stale);
        var cached := SerialNumber(buf[..SerialLen] + sn.value[SerialLen..], SerialLen);
        SerialOutcome(Success, cached, if wantCopy then Some(cached) else None, [SerialCommand])
    else
      SerialOutcome(Success, sn, if wantCopy then Some(sn) else None, [])
  }

  /** One query of a session: whether a buffer was passed and what the exchange would answer. */
  datatype SerialCall = SerialCall(wantCopy: bool, response: Response, stale: seq<Byte>)

  ghost predicate WellFormedCalls(calls: seq<SerialCall>)
  {
    forall i :: 0 <= i < |calls| ==> |calls[i].stale| == SerialBufLen
  }

  /** The outcomes of a run of queries, each starting from the cache the previous one left. */
  function SerialSession(sn: SerialNumber, calls: seq<SerialCall>, checkSw: (Byte, Byte) -> int):
    (outs: seq<SerialOutcome>)
    requires |sn.value| == SerialMax && WellFormedCalls(calls)
    ensures |outs| == |calls|
    ensures forall i :: 0 <= i < |outs| ==> |outs[i].serialnr.value| == SerialMax
    decreases |calls|
  {
    if calls == [] then []
    else
      var c := calls[0];
      var o := GetSerialStep(sn, c.wantCopy, c.response, c.stale, checkSw);
      [o] + SerialSession(o.serialnr, calls[1..], checkSw)
  }

  /** Once the serial number is cached, no later query sends anything or changes it. */
  lemma {:induction false} CachedSerialIsFinal(sn: SerialNumber, calls: seq<SerialCall>,
                                               checkSw: (Byte, Byte) -> int)
    requires |sn.value| == SerialMax && WellFormedCalls(calls) && sn.len != 0
    ensures forall i :: 0 <= i < |calls| ==>
              SerialSession(sn, calls, checkSw)[i].sent == [] &&
              SerialSession(sn, calls, checkSw)[i].result == Success &&
              SerialSession(sn, calls, checkSw)[i].serialnr == sn
    decreases |calls|
  {
    if calls != [] {
      var outs := SerialSession(sn, calls, checkSw);
      var rest := SerialSession(sn, calls[1..], checkSw);
      assert outs == [outs[0]] + rest;
      CachedSerialIsFinal(sn, calls[1..], checkSw);
      forall i | 0 < i < |outs|
        ensures outs[i].sent == [] && outs[i].result == Success && outs[i].serialnr == sn
      {
        assert outs[i] == rest[i - 1];
      }
    }
  }

  /**
   * In any run of queries GET DATA is sent only until the first success, and
   * every successful query reports the same cached serial number.
   */
  lemma {:induction false} SerialFetchedOnce(sn: SerialNumber, calls: seq<SerialCall>,
                                             checkSw: (Byte, Byte) -> int)
    requires |sn.value| == SerialMax && WellFormedCalls(calls)
    ensures forall i, j :: 0 <= i < j < |calls| && SerialSession(sn, calls, checkSw)[i].result == Success ==>
              SerialSession(sn, calls, checkSw)[j].sent == [] &&
              SerialSession(sn, calls, checkSw)[j].result == Success &&
              SerialSession(sn, calls, checkSw)[j].serialnr == SerialSession(sn, calls, checkSw)[i].serialnr
    ensures forall j :: 0 <= j < |calls| && SerialSession(sn, calls, checkSw)[j].sent != [] ==>
              sn.len == 0 &&
              forall i :: 0 <= i < j ==> SerialSession(sn, calls, checkSw)[i].result != Success
    decreases |calls|
  {
    if calls != [] {
      var outs := SerialSession(sn, calls, checkSw);
      var o := outs[0];
      var rest := SerialSession(o.serialnr, calls[1..], checkSw);
      assert outs == [o] + rest;
      SerialFetchedOnce(o.serialnr, calls[1..], checkSw);
      if o.result == Success {
        CachedSerialIsFinal(o.serialnr, calls[1..], checkSw);
        forall j | 0 < j < |outs|
          ensures outs[j].sent == [] && outs[j].result == Success && outs[j].serialnr == o.serialnr
        {
          assert outs[j] == rest[j - 1];
        }
      }
    }
  }
}
