/**
 * Parameter blocks of the two LE controller commands the client can issue:
 * LE Connection Update (Bluetooth Core Specification, Vol 4, Part E,
 * section 7.8.18) built by `send_conn_update`, and LE Set PHY (Vol 4,
 * Part E, section 7.8.49, OCF 0x0032) built by `set_2m_phy`.
 *
 * The source fills packed C structs whose 16-bit fields go through `htobs`.
 * Here the layout is stated as data: a block is a sequence of bytes, every
 * 16-bit field is two bytes, least significant first.
 */
module HciParams {

  type uint8 = x: int | 0 <= x < 0x100
  type uint16 = x: int | 0 <= x < 0x1_0000

  datatype Option<T> = None | Some(value: T)

  // ---------------------------------------------------------------------
  // Little-endian 16-bit fields (`htobs`)
  // ---------------------------------------------------------------------

  /** The 16-bit value stored little-endian at `b[off]`, `b[off + 1]`. */
  function LeAt(b: seq<uint8>, off: nat): uint16
    requires off + 2 <= |b|
  {
    b[off] as int + 0x100 * (b[off + 1] as int)
  }

  /** `htobs(x)` as it lies in memory: low byte first. */
  function U16Le(x: uint16): (b: seq<uint8>)
    ensures |b| == 2 && LeAt(b, 0) == x
  {
    [x % 0x100, x / 0x100]
  }

  /** Reading two bytes back as a 16-bit value inverts `U16Le`. */
  function U16FromLe(lo: uint8, hi: uint8): (x: uint16)
    ensures U16Le(x) == [lo, hi]
  {
    lo + 0x100 * hi
  }

  /** A run of 16-bit fields packed back to back, each little-endian. */
  function PackU16Le(xs: seq<uint16>): (b: seq<uint8>)
    ensures |b| == 2 * |xs|
  {
    if xs == [] then [] else U16Le(xs[0]) + PackU16Le(xs[1..])
  }

  /** Splits an even-length block into its 16-bit little-endian fields. */
  function UnpackU16Le(b: seq<uint8>): (xs: seq<uint16>)
    requires |b| % 2 == 0
    ensures 2 * |xs| == |b|
  {
    if b == [] then [] else [U16FromLe(b[0], b[1])] + UnpackU16Le(b[2..])
  }

  /** Field `i` of a packed run sits at bytes `2 * i` and `2 * i + 1`. */
  lemma {:induction false} PackU16LeAt(xs: seq<uint16>, i: nat)
    requires i < |xs|
    ensures LeAt(PackU16Le(xs), 2 * i) == xs[i]
  {
    if i > 0 {
      PackU16LeAt(xs[1..], i - 1);
      assert PackU16Le(xs)[2 * i..] == PackU16Le(xs[1..])[2 * (i - 1)..];
    }
  }

  /** Unpacking a packed run gives back every field. */
  lemma {:induction false} UnpackPackU16Le(xs: seq<uint16>)
    ensures UnpackU16Le(PackU16Le(xs)) == xs
  {
    if xs != [] {
      var b := PackU16Le(xs);
      assert b[2..] == PackU16Le(xs[1..]);
      UnpackPackU16Le(xs[1..]);
    }
  }

  /** Packing the fields read from a block rebuilds the block. */
  lemma {:induction false} PackUnpackU16Le(b: seq<uint8>)
    requires |b| % 2 == 0
    ensures PackU16Le(UnpackU16Le(b)) == b
  {
    if b != [] {
      var xs := UnpackU16Le(b);
      assert xs[1..] == UnpackU16Le(b[2..]);
      PackUnpackU16Le(b[2..]);
    }
  }

  // ---------------------------------------------------------------------
  // LE Connection Update (Core Specification Vol 4, Part E, 7.8.18)
  // ---------------------------------------------------------------------

  const CONN_UPDATE_PARAM_LEN: nat := 14

  /** The seven fields of the command, in the order the command lays them out. */
  datatype ConnUpdateParams = ConnUpdateParams(
    handle: uint16,
    intervalMin: uint16,
    intervalMax: uint16,
    latency: uint16,
    supervisionTimeout: uint16,
    minCeLength: uint16,
    maxCeLength: uint16)

  function ConnUpdateFields(p: ConnUpdateParams): seq<uint16>
  {
    [p.handle, p.intervalMin, p.intervalMax, p.latency,
     p.supervisionTimeout, p.minCeLength, p.maxCeLength]
  }

  /** The packed struct `cp` of `send_conn_update`, as bytes. */
  function EncodeConnUpdate(p: ConnUpdateParams): (b: seq<uint8>)
    ensures |b| == CONN_UPDATE_PARAM_LEN
  {
    PackU16Le(ConnUpdateFields(p))
  }

  /** What a controller reads out of a parameter block; anything but 14 bytes is refused. */
  function DecodeConnUpdate(b: seq<uint8>): (r: Option<ConnUpdateParams>)
    ensures r.Some? <==> |b| == CONN_UPDATE_PARAM_LEN
  {
    if |b| != CONN_UPDATE_PARAM_LEN then None
    else
      var f := UnpackU16Le(b);
      Some(ConnUpdateParams(f[0], f[1], f[2], f[3], f[4], f[5], f[6]))
  }

  /** Byte layout: seven little-endian fields, handle first, max CE length last. */
  lemma ConnUpdateFieldOrder(p: ConnUpdateParams)
    ensures var b := EncodeConnUpdate(p);
      && LeAt(b, 0) == p.handle
      && LeAt(b, 2) == p.intervalMin
      && LeAt(b, 4) == p.intervalMax
      && LeAt(b, 6) == p.latency
      && LeAt(b, 8) == p.supervisionTimeout
      && LeAt(b, 10) == p.minCeLength
      && LeAt(b, 12) == p.maxCeLength
  {
    var f := ConnUpdateFields(p);
    PackU16LeAt(f, 0);
    PackU16LeAt(f, 1);
    PackU16LeAt(f, 2);
    PackU16LeAt(f, 3);
    PackU16LeAt(f, 4);
    PackU16LeAt(f, 5);
    PackU16LeAt(f, 6);
  }

  lemma ConnUpdateRoundTrip(p: ConnUpdateParams)
    ensures DecodeConnUpdate(EncodeConnUpdate(p)) == Some(p)
  {
    UnpackPackU16Le(ConnUpdateFields(p));
  }

  lemma ConnUpdateDecodeThenEncode(b: seq<uint8>, p: ConnUpdateParams)
    requires DecodeConnUpdate(b) == Some(p)
    ensures EncodeConnUpdate(p) == b
  {
    var f := UnpackU16Le(b);
    assert ConnUpdateFields(p) == f;
    PackUnpackU16Le(b);
  }

  // Values `send_conn_update` writes into every field but the handle.
  const CONN_INTERVAL_TICKS: uint16 := 0x000C
  const CONN_LATENCY: uint16 := 0x0000
  const SUPERVISION_TIMEOUT_TICKS: uint16 := 0x01F4
  const CE_LENGTH: uint16 := 0x0000

  /** The parameters `send_conn_update` requests for `handle`. */
  function ConnUpdateFor(handle: uint16): (p: ConnUpdateParams)
    ensures p.handle == handle
    ensures p.intervalMin == p.intervalMax
    ensures p.minCeLength == p.maxCeLength == 0
  {
    ConnUpdateParams(handle, CONN_INTERVAL_TICKS, CONN_INTERVAL_TICKS, CONN_LATENCY,
                     SUPERVISION_TIMEOUT_TICKS, CE_LENGTH, CE_LENGTH)
  }

  /** The parameter block `send_conn_update` hands to `hci_send_cmd`. */
  function SendConnUpdateBlock(handle: uint16): (b: seq<uint8>)
    ensures |b| == CONN_UPDATE_PARAM_LEN
    ensures LeAt(b, 0) == handle
    ensures DecodeConnUpdate(b) == Some(ConnUpdateFor(handle))
  {
    ConnUpdateFieldOrder(ConnUpdateFor(handle));
    ConnUpdateRoundTrip(ConnUpdateFor(handle));
    EncodeConnUpdate(ConnUpdateFor(handle))
  }

  /** The block byte by byte: only the first two bytes depend on the handle. */
  lemma SendConnUpdateBytes(handle: uint16)
    ensures SendConnUpdateBlock(handle)
         == U16Le(handle) + [0x0C, 0x00, 0x0C, 0x00, 0x00, 0x00, 0xF4, 0x01, 0x00, 0x00, 0x00, 0x00]
  {
    var f := ConnUpdateFields(ConnUpdateFor(handle));
    assert PackU16Le(f[6..]) == [0x00, 0x00];
    assert PackU16Le(f[5..]) == [0x00, 0x00] + PackU16Le(f[6..]);
    assert PackU16Le(f[4..]) == [0xF4, 0x01] + PackU16Le(f[5..]);
    assert PackU16Le(f[3..]) == [0x00, 0x00] + PackU16Le(f[4..]);
    assert PackU16Le(f[2..]) == [0x0C, 0x00] + PackU16Le(f[3..]);
    assert PackU16Le(f[1..]) == [0x0C, 0x00] + PackU16Le(f[2..]);
  }

  // Time units of 7.8.18, in whole microseconds so that no fractions arise.
  /** Connection interval fields count 1.25 ms ticks. */
  function IntervalMicros(ticks: uint16): nat { ticks * 1250 }
  /** The supervision timeout counts 10 ms ticks. */
  function TimeoutMicros(ticks: uint16): nat { ticks * 10_000 }

  /**
   * The limits 7.8.18 sets on the fields: interval 0x0006..0x0C80 with
   * min <= max, latency 0x0000..0x01F3, timeout 0x000A..0x0C80, handle at
   * most 0x0EFF, min CE length <= max CE length, and the timeout in ms
   * greater than (1 + latency) * interval_max in ms * 2.
   */
  predicate ConnUpdateWithinCoreLimits(p: ConnUpdateParams)
  {
    && p.handle <= 0x0EFF
    && 0x0006 <= p.intervalMin <= p.intervalMax <= 0x0C80
    && p.latency <= 0x01F3
    && 0x000A <= p.supervisionTimeout <= 0x0C80
    && p.minCeLength <= p.maxCeLength
    && TimeoutMicros(p.supervisionTimeout) > (1 + p.latency) * IntervalMicros(p.intervalMax) * 2
  }

  /** The comments' units: 15 ms interval, no latency, 5 s supervision timeout. */
  lemma ConnUpdateTimings(handle: uint16)
    ensures var p := ConnUpdateFor(handle);
      && IntervalMicros(p.intervalMin) == 15_000
      && IntervalMicros(p.intervalMax) == 15_000
      && p.intervalMin <= p.intervalMax
      && p.latency == 0
      && TimeoutMicros(p.supervisionTimeout) == 5_000_000
  {
  }

  /** The chosen constants obey 7.8.18 for every handle a controller can assign. */
  lemma ConnUpdateForWithinCoreLimits(handle: uint16)
    requires handle <= 0x0EFF
    ensures ConnUpdateWithinCoreLimits(ConnUpdateFor(handle))
  {
  }

  // ---------------------------------------------------------------------
  // LE Set PHY (Core Specification Vol 4, Part E, 7.8.49)
  // ---------------------------------------------------------------------

  /** PHY preference masks: bit 0 LE 1M, bit 1 LE 2M, bit 2 LE Coded. */
  const PHY_LE_2M: uint8 := 0x02

  // The struct `le_set_phy_cp` as the source declares it.

  const SET_PHY_AS_WRITTEN_LEN: nat := 5

  datatype SetPhyParamsAsWritten = SetPhyParamsAsWritten(
    handle: uint16, txPhys: uint8, rxPhys: uint8, phyOpts: uint8)

  function EncodeSetPhyAsWritten(p: SetPhyParamsAsWritten): (b: seq<uint8>)
    ensures |b| == SET_PHY_AS_WRITTEN_LEN
    ensures LeAt(b, 0) == p.handle && b[2] == p.txPhys && b[3] == p.rxPhys && b[4] == p.phyOpts
  {
    U16Le(p.handle) + [p.txPhys, p.rxPhys, p.phyOpts]
  }

  function DecodeSetPhyAsWritten(b: seq<uint8>): (r: Option<SetPhyParamsAsWritten>)
    ensures r.Some? <==> |b| == SET_PHY_AS_WRITTEN_LEN
  {
    if |b| != SET_PHY_AS_WRITTEN_LEN then None
    else Some(SetPhyParamsAsWritten(U16FromLe(b[0], b[1]), b[2], b[3], b[4]))
  }

  lemma SetPhyAsWrittenRoundTrip(p: SetPhyParamsAsWritten)
    ensures DecodeSetPhyAsWritten(EncodeSetPhyAsWritten(p)) == Some(p)
  {
  }

  lemma SetPhyAsWrittenDecodeThenEncode(b: seq<uint8>, p: SetPhyParamsAsWritten)
    requires DecodeSetPhyAsWritten(b) == Some(p)
    ensures EncodeSetPhyAsWritten(p) == b
  {
    assert U16Le(p.handle) == b[..2];
  }

  /**
   * The block `set_2m_phy` hands to `hci_send_req`: the handle, then TX and
   * RX both asking for LE 2M only, then a zero option byte. Every byte of
   * the struct is assigned, so the `memset` that precedes it leaves no trace.
   */
  function Set2mPhyBlockAsWritten(handle: uint16): (b: seq<uint8>)
    ensures |b| == SET_PHY_AS_WRITTEN_LEN
    ensures DecodeSetPhyAsWritten(b) == Some(SetPhyParamsAsWritten(handle, PHY_LE_2M, PHY_LE_2M, 0x00))
  {
    SetPhyAsWrittenRoundTrip(SetPhyParamsAsWritten(handle, PHY_LE_2M, PHY_LE_2M, 0x00));
    EncodeSetPhyAsWritten(SetPhyParamsAsWritten(handle, PHY_LE_2M, PHY_LE_2M, 0x00))
  }

  // The parameter block section 7.8.49 defines: Connection_Handle (2 octets),
  // All_PHYs (1), TX_PHYs (1), RX_PHYs (1), PHY_Options (2 octets).

  const LE_SET_PHY_PARAM_LEN: nat := 7

  datatype LeSetPhyParams = LeSetPhyParams(
    handle: uint16, allPhys: uint8, txPhys: uint8, rxPhys: uint8, phyOptions: uint16)

  function EncodeLeSetPhy(p: LeSetPhyParams): (b: seq<uint8>)
    ensures |b| == LE_SET_PHY_PARAM_LEN
    ensures && LeAt(b, 0) == p.handle && b[2] == p.allPhys && b[3] == p.txPhys
            && b[4] == p.rxPhys && LeAt(b, 5) == p.phyOptions
  {
    U16Le(p.handle) + [p.allPhys, p.txPhys, p.rxPhys] + U16Le(p.phyOptions)
  }

  /** What a controller reads out of an LE Set PHY block; anything but 7 bytes is refused. */
  function DecodeLeSetPhy(b: seq<uint8>): (r: Option<LeSetPhyParams>)
    ensures r.Some? <==> |b| == LE_SET_PHY_PARAM_LEN
  {
    if |b| != LE_SET_PHY_PARAM_LEN then None
    else Some(LeSetPhyParams(U16FromLe(b[0], b[1]), b[2], b[3], b[4], U16FromLe(b[5], b[6])))
  }

  lemma LeSetPhyRoundTrip(p: LeSetPhyParams)
    ensures DecodeLeSetPhy(EncodeLeSetPhy(p)) == Some(p)
  {
    var b := EncodeLeSetPhy(p);
    assert U16FromLe(b[5], b[6]) == p.phyOptions by {
      assert b[5..] == U16Le(p.phyOptions);
    }
  }

  lemma LeSetPhyDecodeThenEncode(b: seq<uint8>, p: LeSetPhyParams)
    requires DecodeLeSetPhy(b) == Some(p)
    ensures EncodeLeSetPhy(p) == b
  {
    assert U16Le(p.handle) == b[..2];
    assert U16Le(p.phyOptions) == b[5..];
  }

  /**
   * The block `set_2m_phy` evidently means to send: no "no preference"
   * bits in All_PHYs, LE 2M only for TX and RX, no coding options.
   */
  function Set2mPhyBlock(handle: uint16): (b: seq<uint8>)
    ensures |b| == LE_SET_PHY_PARAM_LEN
    ensures DecodeLeSetPhy(b) == Some(LeSetPhyParams(handle, 0x00, PHY_LE_2M, PHY_LE_2M, 0x0000))
  {
    LeSetPhyRoundTrip(LeSetPhyParams(handle, 0x00, PHY_LE_2M, PHY_LE_2M, 0x0000));
    EncodeLeSetPhy(LeSetPhyParams(handle, 0x00, PHY_LE_2M, PHY_LE_2M, 0x0000))
  }

  /**
   * The block as written is two bytes short of what 7.8.49 defines, so a
   * controller cannot read it as LE Set PHY parameters for any handle; and
   * read field by field against 7.8.49 its third byte lands in All_PHYs.
   */
  lemma Set2mPhyAsWrittenNotLeSetPhy(handle: uint16)
    ensures DecodeLeSetPhy(Set2mPhyBlockAsWritten(handle)) == None
    ensures Set2mPhyBlockAsWritten(handle)[2] == PHY_LE_2M != Set2mPhyBlock(handle)[2]
  {
    var written := Set2mPhyBlockAsWritten(handle);
    assert written == EncodeSetPhyAsWritten(SetPhyParamsAsWritten(handle, PHY_LE_2M, PHY_LE_2M, 0x00));
    var fixed := Set2mPhyBlock(handle);
    assert fixed == EncodeLeSetPhy(LeSetPhyParams(handle, 0x00, PHY_LE_2M, PHY_LE_2M, 0x0000));
  }
}
