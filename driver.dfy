/**
 * The ApolloOS driver's state and its overrides of the ISO 7816 operations.
 * `Driver` holds what the C file keeps in a static variable (the cached size
 * of the last selected file, shared by every card the driver serves), `Card`
 * the fields of `sc_card` the driver reads and writes, and `File` the fields
 * of `sc_file` the metadata override sets. Every exchange with the card is
 * a parameter: the response the card would give to the command sent.
 */
module ApolloOsDriver {
  import opened Wrappers
  import opened Iso7816
  import opened ApolloOs

  /** SC_FILE_TYPE_*. */
  datatype FileType = WorkingEf | InternalEf | Df | Bso | UnknownType
  /** SC_FILE_EF_*. */
  datatype EfStructure = EfUnknown | Transparent | LinearFixed | LinearFixedTlv
                       | LinearVariable | LinearVariableTlv | Cyclic | CyclicTlv

  /** The fields of `sc_file` that the metadata override reads or writes. */
  class File {
    var fileType: FileType
    var efStructure: EfStructure
    var size: nat
    var namelen: nat

    constructor (fileType: FileType, efStructure: EfStructure, size: nat, namelen: nat)
      ensures this.fileType == fileType && this.efStructure == efStructure
      ensures this.size == size && this.namelen == namelen
    {
      this.fileType, this.efStructure := fileType, efStructure;
      this.size, this.namelen := size, namelen;
    }
  }

  /** The fields of `sc_card` the driver uses; `checkSw` is the status-word mapping. */
  class Card {
    var serialnr: SerialNumber
    var maxRecvSize: nat
    const checkSw: (Byte, Byte) -> int

    ghost predicate Valid()
      reads this
    {
      |serialnr.value| == SerialMax
    }

    /** A connected card: empty serial number, the reader's receive limit. */
    constructor (maxRecvSize: nat, checkSw: (Byte, Byte) -> int)
      ensures Valid() && serialnr == NoSerial()
      ensures this.maxRecvSize == maxRecvSize && this.checkSw == checkSw
    {
      serialnr := NoSerial();
      this.maxRecvSize := maxRecvSize;
      this.checkSw := checkSw;
    }
  }

  class Driver {
    /** `file_s`: the size of the last selected file, a `size_t`. */
    var fileSize: nat

    ghost predicate Valid()
      reads this
    {
      fileSize < SizeMod
    }

    /** The driver as loaded: no file selected yet. */
    constructor ()
      ensures Valid() && fileSize == 0
    {
      fileSize := 0;
    }

    /**
     * `apolloos_select_file`: `baseResult` is what the ISO select returned.
     * On failure it is returned and the cached size kept; otherwise the size
     * is probed afresh, overwriting whatever was cached.
     */
    method SelectFile(card: Card, baseResult: int, probe: Response, stale: seq<Byte>)
      returns (r: int, sent: seq<Command>)
      requires Valid() && |stale| == ProbeLen
      modifies this
      ensures Valid() && r == baseResult
      ensures baseResult < 0 ==> fileSize == old(fileSize) && sent == []
      ensures 0 <= baseResult ==>
                fileSize == ProbeSize(probe, stale, card.checkSw) && sent == [ProbeCommand]
    {
      if baseResult < 0 {
        return baseResult, [];
      }
      fileSize := ProbeSize(probe, stale, card.checkSw);
      return baseResult, [ProbeCommand];
    }

    /**
     * `apolloos_process_fci`: `file` holds what the ISO decoder left in it and
     * `baseResult` what the decoder returned. A named file becomes a DF of
     * unknown structure with its size untouched; an unnamed one a transparent
     * working EF whose size is probed afresh. The cached size is not touched.
     */
    method ProcessFci(card: Card, file: File, baseResult: int, probe: Response, stale: seq<Byte>)
      returns (r: int, sent: seq<Command>)
      requires |stale| == ProbeLen
      modifies file
      ensures r == baseResult && file.namelen == old(file.namelen)
      ensures baseResult < 0 ==> unchanged(file) && sent == []
      ensures 0 <= baseResult && file.namelen != 0 ==>
                file.fileType == Df && file.efStructure == EfUnknown &&
                file.size == old(file.size) && sent == []
      ensures 0 <= baseResult && file.namelen == 0 ==>
                file.fileType == WorkingEf && file.efStructure == Transparent &&
                file.size == ProbeSize(probe, stale, card.checkSw) && sent == [ProbeCommand]
    {
      if baseResult < 0 {
        return baseResult, [];
      }
      if file.namelen != 0 {
        file.fileType := Df;
        file.efStructure := EfUnknown;
        sent := [];
      } else {
        file.fileType := WorkingEf;
        file.efStructure := Transparent;
        file.size := ProbeSize(probe, stale, card.checkSw);
        sent := [ProbeCommand];
      }
      r := baseResult;
    }

    /**
     * `apolloos_read_binary`: reads `count` bytes at logical offset `idx` into
     * `buf`, the card answering `resp` to the command sent. The caller's
     * buffer holds `count` bytes and `count` is within the card's limit.
     */
    method ReadBinary(card: Card, idx: nat, buf: array<Byte>, count: nat, resp: Response)
      returns (r: int, sent: seq<Command>)
      requires Valid() && idx < UIntMod && count < SizeMod
      requires count <= card.maxRecvSize && count <= buf.Length
      modifies buf
      ensures var o := ReadBinaryOutcome(idx, count, fileSize, resp, card.checkSw);
              r == o.result && sent == o.sent &&
              buf[..|o.copied|] == o.copied && buf[|o.copied|..] == old(buf[|o.copied|..])
    {
      var n := count;
      if idx == 0 {
        if fileSize < n {
          n := fileSize;
        }
      } else if fileSize < (n + idx) % SizeMod {
        if idx < fileSize {
          n := fileSize - idx;
        } else {
          return 0, [];
        }
      }
      sent := [ReadCommand(idx, n)];
      if resp.transport < 0 {
        return resp.transport as int, sent;
      }
      var resplen := Min(|resp.data|, n);
      if resplen == 0 {
        return card.checkSw(resp.sw1, resp.sw2), sent;
      }
      forall i | 0 <= i < resplen {
        buf[i] := resp.data[i];
      }
      r := resplen;
    }

    /**
     * `apolloos_get_serialnr`: fetches the serial number while none is cached
     * and returns the cache when `wantCopy` (a non-null output) is set.
     */
    method GetSerialNr(card: Card, wantCopy: bool, resp: Response, stale: seq<Byte>)
      returns (r: int, copy: Option<SerialNumber>, sent: seq<Command>)
      requires card.Valid() && |stale| == SerialBufLen
      modifies card`serialnr
      ensures card.Valid()
      ensures var o := GetSerialStep(old(card.serialnr), wantCopy, resp, stale, card.checkSw);
              r == o.result && card.serialnr == o.serialnr && copy == o.copy && sent == o.sent
    {
      sent := [];
      if card.serialnr.len == 0 {
        sent := [SerialCommand];
        if resp.transport < 0 {
          return resp.transport as int, None, sent;
        }
        r := card.checkSw(resp.sw1, resp.sw2);
        if r != Success {
          return r, None, sent;
        }
        var buf := Received(resp.data, stale);
        card.serialnr := SerialNumber(buf[..SerialLen] + card.serialnr.value[SerialLen..], SerialLen);
      }
      copy := if wantCopy then Some(card.serialnr) else None;
      r := Success;
    }

    /** `apolloos_card_ctl`: only GET_SERIALNR is handled, anything else is not supported. */
    method CardCtl(card: Card, cmd: nat, wantCopy: bool, resp: Response, stale: seq<Byte>)
      returns (r: int, copy: Option<SerialNumber>, sent: seq<Command>)
      requires card.Valid() && |stale| == SerialBufLen
      modifies card`serialnr
      ensures card.Valid()
      ensures cmd == CardCtlGetSerialNr ==>
                var o := GetSerialStep(old(card.serialnr), wantCopy, resp, stale, card.checkSw);
                r == o.result && card.serialnr == o.serialnr && copy == o.copy && sent == o.sent
      ensures cmd != CardCtlGetSerialNr ==>
                r == NotSupported && unchanged(card) && copy == None && sent == []
    {
      if cmd == CardCtlGetSerialNr {
        r, copy, sent := GetSerialNr(card, wantCopy, resp, stale);
      } else {
        r, copy, sent := NotSupported, None, [];
      }
    }

    /** `apolloos_init`: sets the receive limit to 255 and warms the serial-number cache. */
    method Init(card: Card, resp: Response, stale: seq<Byte>) returns (r: int, sent: seq<Command>)
      requires card.Valid() && |stale| == SerialBufLen
      modifies card`serialnr, card`maxRecvSize
      ensures card.Valid() && card.maxRecvSize == ApolloMaxRecvSize
      ensures var o := GetSerialStep(old(card.serialnr), false, resp, stale, card.checkSw);
              r == o.result && card.serialnr == o.serialnr && sent == o.sent
    {
      card.maxRecvSize := ApolloMaxRecvSize;
      var copy;
      r, copy, sent := GetSerialNr(card, false, resp, stale);
    }
  }

  /**
   * Selecting file A and then file B leaves B's probed size in the cache, so
   * the next read is clamped against B and never against A.
   */
  method SelectTwiceThenRead(driver: Driver, card: Card,
                             probeA: Response, staleA: seq<Byte>,
                             probeB: Response, staleB: seq<Byte>,
                             idx: nat, buf: array<Byte>, count: nat, resp: Response)
    returns (r: int, sent: seq<Command>)
    requires driver.Valid() && |staleA| == ProbeLen && |staleB| == ProbeLen
    requires idx < UIntMod && count < SizeMod
    requires count <= card.maxRecvSize && count <= buf.Length
    modifies driver, buf
    ensures driver.fileSize == ProbeSize(probeB, staleB, card.checkSw)
    ensures r == ReadBinaryOutcome(idx, count, ProbeSize(probeB, staleB, card.checkSw),
                                   resp, card.checkSw).result
    ensures sent == [ProbeCommand, ProbeCommand] +
                    ReadBinaryOutcome(idx, count, ProbeSize(probeB, staleB, card.checkSw),
                                      resp, card.checkSw).sent
  {
    var _, sentA := driver.SelectFile(card, Success, probeA, staleA);
    var _, sentB := driver.SelectFile(card, Success, probeB, staleB);
    var sentRead;
    r, sentRead := driver.ReadBinary(card, idx, buf, count, resp);
    sent := sentA + sentB + sentRead;
  }
}
