/**
 * The LNAV navigation message: a fixed table of 29 fields over a 90-byte
 * payload, decoded into a record of raw integer values, and the status-bit
 * accessor. Scale factors are not applied and the eleven IEEE 754 binary32
 * fields are kept as their raw 4-byte words.
 */
module Lnav {
  import opened Common
  import opened LeCodec
  import opened Bits

  /** Raw bytes of a binary32 field, in wire order. */
  type Word = seq<Byte>

  /** One decoded LNAV message, every field as read before scaling. */
  datatype Lnav = Lnav(
    TimeOfValidity: nat,
    Latitude: int,
    Longitude: int,
    Depth: int,
    Altitude: nat,
    Roll: int,
    Pitch: int,
    Heading: nat,
    VelocityNorth: int,
    VelocityEast: int,
    VelocityDown: int,
    AngularRateForward: int,
    AngularRateStarboard: int,
    AngularRateDown: int,
    AccelerationForward: int,
    AccelerationStarboard: int,
    AccelerationDown: int,
    HorizontalPositionErrorSemiMajor: Word,
    HorizontalPositionErrorSemiMinor: Word,
    HorizontalPositionErrorSemiMajorDirection: Word,
    VerticalPositionError: Word,
    LevelErrorNorth: Word,
    LevelErrorEast: Word,
    ErrorHeading: Word,
    HorizontalVelocityErrorSemiMajor: Word,
    HorizontalVelocityErrorSemiMinor: Word,
    HorizontalVelocityErrorSemiMajorDirection: Word,
    VerticalVelocityError: Word,
    StatusFlags: nat)

  /** The exception `struct.unpack('f', ...)` raises when its slice is not 4 bytes long. */
  datatype DecodeError = StructError

  /** Length of the LNAV payload carried by a frame. */
  const PayloadLength: nat := 90

  /** Python's `m[lo:hi]` for 0 <= lo <= hi: clipped to the length of m. */
  function Slice(m: seq<Byte>, lo: nat, hi: nat): (s: seq<Byte>)
    requires lo <= hi
    ensures |s| <= hi - lo
    ensures hi <= |m| ==> s == m[lo..hi]
    ensures lo < |m| <= hi ==> s == m[lo..]
    ensures |m| <= lo ==> s == []
  {
    var l := if lo < |m| then lo else |m|;
    var h := if hi < |m| then hi else |m|;
    m[l..h]
  }

  /**
   * LNAV.Decode. Python slicing never fails, so the integer fields read
   * whatever bytes are present; a binary32 slice shorter than 4 bytes makes
   * `struct.unpack` raise, which happens exactly when the input is shorter
   * than 88 bytes.
   */
  function Decode(m: seq<Byte>): (r: Result<Lnav, DecodeError>)
    ensures r.Success? <==> |m| >= 88
  {
    if |m| < 88 then Failure(StructError)
    else Success(Lnav(
      ExtractUnsigned(m[0..6]),
      ExtractSigned(m[6..10]),
      ExtractSigned(m[10..14]),
      ExtractSigned(m[14..18]),
      ExtractUnsigned(m[18..20]),
      ExtractSigned(m[20..22]),
      ExtractSigned(m[22..24]),
      ExtractUnsigned(m[24..26]),
      ExtractSigned(m[26..28]),
      ExtractSigned(m[28..30]),
      ExtractSigned(m[30..32]),
      ExtractSigned(m[32..34]),
      ExtractSigned(m[34..36]),
      ExtractSigned(m[36..38]),
      ExtractSigned(m[38..40]),
      ExtractSigned(m[40..42]),
      ExtractSigned(m[42..44]),
      m[44..48],
      m[48..52],
      m[52..56],
      m[56..60],
      m[60..64],
      m[64..68],
      m[68..72],
      m[72..76],
      m[76..80],
      m[80..84],
      m[84..88],
      ExtractUnsigned(Slice(m, 88, 90))))
  }

  // ---------------------------------------------------------------------
  // The field table, as an independent description of the payload layout
  // ---------------------------------------------------------------------

  datatype Encoding = Unsigned | Signed | Float32

  /** A field occupies bytes [offset, offset + width) of the payload. */
  datatype FieldSpec = FieldSpec(offset: nat, width: nat, encoding: Encoding)

  const FieldCount: nat := 29

  /** The field table: where field i lies in the payload and how it is encoded. */
  function Layout(i: nat): FieldSpec
    requires i < FieldCount
  {
    match i
    case 0 => FieldSpec(0, 6, Unsigned)  // TimeOfValidity
    case 1 => FieldSpec(6, 4, Signed)  // Latitude
    case 2 => FieldSpec(10, 4, Signed)  // Longitude
    case 3 => FieldSpec(14, 4, Signed)  // Depth
    case 4 => FieldSpec(18, 2, Unsigned)  // Altitude
    case 5 => FieldSpec(20, 2, Signed)  // Roll
    case 6 => FieldSpec(22, 2, Signed)  // Pitch
    case 7 => FieldSpec(24, 2, Unsigned)  // Heading
    case 8 => FieldSpec(26, 2, Signed)  // VelocityNorth
    case 9 => FieldSpec(28, 2, Signed)  // VelocityEast
    case 10 => FieldSpec(30, 2, Signed)  // VelocityDown
    case 11 => FieldSpec(32, 2, Signed)  // AngularRateForward
    case 12 => FieldSpec(34, 2, Signed)  // AngularRateStarboard
    case 13 => FieldSpec(36, 2, Signed)  // AngularRateDown
    case 14 => FieldSpec(38, 2, Signed)  // AccelerationForward
    case 15 => FieldSpec(40, 2, Signed)  // AccelerationStarboard
    case 16 => FieldSpec(42, 2, Signed)  // AccelerationDown
    case 17 => FieldSpec(44, 4, Float32)  // HorizontalPositionErrorSemiMajor
    case 18 => FieldSpec(48, 4, Float32)  // HorizontalPositionErrorSemiMinor
    case 19 => FieldSpec(52, 4, Float32)  // HorizontalPositionErrorSemiMajorDirection
    case 20 => FieldSpec(56, 4, Float32)  // VerticalPositionError
    case 21 => FieldSpec(60, 4, Float32)  // LevelErrorNorth
    case 22 => FieldSpec(64, 4, Float32)  // LevelErrorEast
    case 23 => FieldSpec(68, 4, Float32)  // ErrorHeading
    case 24 => FieldSpec(72, 4, Float32)  // HorizontalVelocityErrorSemiMajor
    case 25 => FieldSpec(76, 4, Float32)  // HorizontalVelocityErrorSemiMinor
    case 26 => FieldSpec(80, 4, Float32)  // HorizontalVelocityErrorSemiMajorDirection
    case 27 => FieldSpec(84, 4, Float32)  // VerticalVelocityError
    case _ => FieldSpec(88, 2, Unsigned)  // StatusFlags
  }

  /** A field's raw value: an integer, or the four bytes of a binary32. */
  datatype Raw = Int(value: int) | Bytes(word: Word)

  function ReadField(bytes: seq<Byte>, encoding: Encoding): Raw
  {
    match encoding
    case Unsigned => Int(ExtractUnsigned(bytes))
    case Signed => Int(ExtractSigned(bytes))
    case Float32 => Bytes(bytes)
  }

  /** Field number i of a record, in table order. */
  function Field(r: Lnav, i: nat): Raw
    requires i < FieldCount
  {
    match i
    case 0 => Int(r.TimeOfValidity)
    case 1 => Int(r.Latitude)
    case 2 => Int(r.Longitude)
    case 3 => Int(r.Depth)
    case 4 => Int(r.Altitude)
    case 5 => Int(r.Roll)
    case 6 => Int(r.Pitch)
    case 7 => Int(r.Heading)
    case 8 => Int(r.VelocityNorth)
    case 9 => Int(r.VelocityEast)
    case 10 => Int(r.VelocityDown)
    case 11 => Int(r.AngularRateForward)
    case 12 => Int(r.AngularRateStarboard)
    case 13 => Int(r.AngularRateDown)
    case 14 => Int(r.AccelerationForward)
    case 15 => Int(r.AccelerationStarboard)
    case 16 => Int(r.AccelerationDown)
    case 17 => Bytes(r.HorizontalPositionErrorSemiMajor)
    case 18 => Bytes(r.HorizontalPositionErrorSemiMinor)
    case 19 => Bytes(r.HorizontalPositionErrorSemiMajorDirection)
    case 20 => Bytes(r.VerticalPositionError)
    case 21 => Bytes(r.LevelErrorNorth)
    case 22 => Bytes(r.LevelErrorEast)
    case 23 => Bytes(r.ErrorHeading)
    case 24 => Bytes(r.HorizontalVelocityErrorSemiMajor)
    case 25 => Bytes(r.HorizontalVelocityErrorSemiMinor)
    case 26 => Bytes(r.HorizontalVelocityErrorSemiMajorDirection)
    case 27 => Bytes(r.VerticalVelocityError)
    case _ => Int(r.StatusFlags)
  }

  /** The fields are contiguous and tile the 90-byte payload exactly, in order. */
  lemma LayoutTilesPayload()
    ensures Layout(0).offset == 0
    ensures forall i :: 0 <= i < FieldCount - 1 ==> Layout(i).offset + Layout(i).width == Layout(i + 1).offset
    ensures Layout(FieldCount - 1).offset + Layout(FieldCount - 1).width == PayloadLength
    ensures forall i :: 0 <= i < FieldCount ==> Layout(i).width > 0
  {
  }

  /** Decode reads field i from exactly the slice and encoding the table gives it. */
  lemma DecodeFollowsLayout(m: seq<Byte>, i: nat)
    requires |m| == PayloadLength && i < FieldCount
    ensures Decode(m).Success?
    ensures var f := Layout(i);
      f.offset + f.width <= |m| &&
      Field(Decode(m).value, i) == ReadField(m[f.offset..f.offset + f.width], f.encoding)
  {
    DecodedFields(m);
    match i
    case 0 =>
    case 1 =>
    case 2 =>
    case 3 =>
    case 4 =>
    case 5 =>
    case 6 =>
    case 7 =>
    case 8 =>
    case 9 =>
    case 10 =>
    case 11 =>
    case 12 =>
    case 13 =>
    case 14 =>
    case 15 =>
    case 16 =>
    case 17 =>
    case 18 =>
    case 19 =>
    case 20 =>
    case 21 =>
    case 22 =>
    case 23 =>
    case 24 =>
    case 25 =>
    case 26 =>
    case 27 =>
    case _ =>
  }

  /** The value of every field of a decoded 90-byte payload, one slice each. */
  lemma DecodedFields(m: seq<Byte>)
    requires |m| == PayloadLength
    ensures Decode(m).Success?
    ensures var r := Decode(m).value;
      r.TimeOfValidity == ExtractUnsigned(m[0..6]) &&
      r.Latitude == ExtractSigned(m[6..10]) &&
      r.Longitude == ExtractSigned(m[10..14]) &&
      r.Depth == ExtractSigned(m[14..18]) &&
      r.Altitude == ExtractUnsigned(m[18..20]) &&
      r.Roll == ExtractSigned(m[20..22]) &&
      r.Pitch == ExtractSigned(m[22..24]) &&
      r.Heading == ExtractUnsigned(m[24..26]) &&
      r.VelocityNorth == ExtractSigned(m[26..28]) &&
      r.VelocityEast == ExtractSigned(m[28..30]) &&
      r.VelocityDown == ExtractSigned(m[30..32]) &&
      r.AngularRateForward == ExtractSigned(m[32..34]) &&
      r.AngularRateStarboard == ExtractSigned(m[34..36]) &&
      r.AngularRateDown == ExtractSigned(m[36..38]) &&
      r.AccelerationForward == ExtractSigned(m[38..40]) &&
      r.AccelerationStarboard == ExtractSigned(m[40..42]) &&
      r.AccelerationDown == ExtractSigned(m[42..44]) &&
      r.HorizontalPositionErrorSemiMajor == m[44..48] &&
      r.HorizontalPositionErrorSemiMinor == m[48..52] &&
      r.HorizontalPositionErrorSemiMajorDirection == m[52..56] &&
      r.VerticalPositionError == m[56..60] &&
      r.LevelErrorNorth == m[60..64] &&
      r.LevelErrorEast == m[64..68] &&
      r.ErrorHeading == m[68..72] &&
      r.HorizontalVelocityErrorSemiMajor == m[72..76] &&
      r.HorizontalVelocityErrorSemiMinor == m[76..80] &&
      r.HorizontalVelocityErrorSemiMajorDirection == m[80..84] &&
      r.VerticalVelocityError == m[84..88] &&
      r.StatusFlags == ExtractUnsigned(m[88..90])
  {
    assert Slice(m, 88, 90) == m[88..90];
  }

  /** Each field depends only on the bytes of its own slice. */
  lemma FieldIsLocal(m1: seq<Byte>, m2: seq<Byte>, i: nat)
    requires |m1| == PayloadLength && |m2| == PayloadLength && i < FieldCount
    requires var f := Layout(i); m1[f.offset..f.offset + f.width] == m2[f.offset..f.offset + f.width]
    ensures Field(Decode(m1).value, i) == Field(Decode(m2).value, i)
  {
    DecodeFollowsLayout(m1, i);
    DecodeFollowsLayout(m2, i);
  }

  /** Ranges that follow from each field's width and signedness. */
  lemma DecodedRanges(m: seq<Byte>)
    requires |m| == PayloadLength
    ensures Decode(m).Success?
    ensures var r := Decode(m).value;
      r.TimeOfValidity < Pow256(6) &&
      r.Heading < 0x1_0000 &&
      r.Altitude < 0x1_0000 &&
      -0x8000_0000 <= r.Latitude < 0x8000_0000 &&
      -0x8000_0000 <= r.Longitude < 0x8000_0000 &&
      -0x8000_0000 <= r.Depth < 0x8000_0000 &&
      -0x8000 <= r.Roll < 0x8000 &&
      -0x8000 <= r.Pitch < 0x8000 &&
      -0x8000 <= r.VelocityNorth < 0x8000 &&
      -0x8000 <= r.VelocityEast < 0x8000 &&
      -0x8000 <= r.VelocityDown < 0x8000 &&
      -0x8000 <= r.AngularRateForward < 0x8000 &&
      -0x8000 <= r.AngularRateStarboard < 0x8000 &&
      -0x8000 <= r.AngularRateDown < 0x8000 &&
      -0x8000 <= r.AccelerationForward < 0x8000 &&
      -0x8000 <= r.AccelerationStarboard < 0x8000 &&
      -0x8000 <= r.AccelerationDown < 0x8000 &&
      r.StatusFlags < 0x1_0000
  {
    assert Half(4) == 0x8000_0000 && Half(2) == 0x8000;
    assert Slice(m, 88, 90) == m[88..90];
  }

  /**
   * On 88 or 89 bytes the binary32 fields are complete but `message[88:90]`
   * is clipped: StatusFlags reads as 0, or as byte 88 alone.
   */
  lemma ClippedStatus(m: seq<Byte>)
    requires 88 <= |m| < PayloadLength
    ensures Decode(m).Success?
    ensures Decode(m).value.StatusFlags == if |m| == 88 then 0 else m[88] as int
  {
    var s := Slice(m, 88, 90);
    if |m| == 89 {
      assert s == [m[88]];
      assert ExtractUnsigned(s) == s[0] + 256 * ExtractUnsigned(s[1..]);
    } else {
      assert s == [];
    }
  }

  /** StatusFlags is the 16-bit little-endian value of payload bytes 88 and 89. */
  lemma DecodedStatus(m: seq<Byte>)
    requires |m| == PayloadLength
    ensures Decode(m).Success?
    ensures Decode(m).value.StatusFlags == m[88] as int + 256 * (m[89] as int)
  {
    var s := m[88..90];
    assert Slice(m, 88, 90) == s;
    assert ExtractUnsigned(s) == s[0] + 256 * ExtractUnsigned(s[1..]);
    assert ExtractUnsigned(s[1..]) == s[1] + 256 * ExtractUnsigned(s[2..]);
  }

  // ---------------------------------------------------------------------
  // Status flags
  // ---------------------------------------------------------------------

  /** The members of the StatusFlags enumeration. */
  datatype StatusFlag =
    | OrientationStatusNotOkOrUnsettled
    | PositionStatusInvalid
    | AltitudeStatusOldOrInvalid
    | DepthStatusOldOrInvalid
    | OrientationSourceINS
    | SubseaUSBL_NotUsed
    | Depth_NotUsed
    | DVL_NotUsed
    | LBL_NotUsed
    | ZUPT_NotUsed
    | XPOS_NotUsed
    | GPS_NotUsed
    | ZMD_NotUsed
    | USBL_NotUsed
    | Euler

  /**
   * The Python value of an enumeration member. Every member but the last is
   * written with a trailing comma, which makes its value a one-element tuple;
   * Euler's value is a bare integer.
   */
  datatype EnumValue = OneTuple(item: nat) | Scalar(n: nat)

  function Value(f: StatusFlag): (v: EnumValue)
    ensures v.Scalar? <==> f == Euler
  {
    match f
    case OrientationStatusNotOkOrUnsettled => OneTuple(0)
    case PositionStatusInvalid => OneTuple(1)
    case AltitudeStatusOldOrInvalid => OneTuple(2)
    case DepthStatusOldOrInvalid => OneTuple(3)
    case OrientationSourceINS => OneTuple(4)
    case SubseaUSBL_NotUsed => OneTuple(5)
    case Depth_NotUsed => OneTuple(6)
    case DVL_NotUsed => OneTuple(7)
    case LBL_NotUsed => OneTuple(8)
    case ZUPT_NotUsed => OneTuple(9)
    case XPOS_NotUsed => OneTuple(10)
    case GPS_NotUsed => OneTuple(11)
    case ZMD_NotUsed => OneTuple(12)
    case USBL_NotUsed => OneTuple(13)
    case Euler => Scalar(14)
  }

  /** `statusFlag.value[0]` on an integer raises TypeError. */
  datatype StatusError = NotSubscriptable

  /** LNAV.GetStatus: `(StatusFlags & (1 << statusFlag.value[0])) > 0`. */
  function GetStatus(r: Lnav, f: StatusFlag): (res: Result<bool, StatusError>)
    ensures res.Failure? <==> f == Euler
  {
    match Value(f)
    case OneTuple(k) => Success(BitAnd(r.StatusFlags, Pow2(k)) > 0)
    case Scalar(_) => Failure(NotSubscriptable)
  }

  /** The tuple-valued members name the fourteen distinct bit positions 0 to 13. */
  lemma FlagPositions(f: StatusFlag, g: StatusFlag)
    ensures Value(f).OneTuple? ==> Value(f).item < 14
    ensures Value(f).OneTuple? && Value(g).OneTuple? && Value(f).item == Value(g).item ==> f == g
  {
  }

  /** GetStatus of a flag other than Euler reports bit `position` of StatusFlags. */
  lemma GetStatusReadsBit(r: Lnav, f: StatusFlag)
    requires f != Euler
    ensures Value(f).OneTuple?
    ensures GetStatus(r, f) == Success(Bit(r.StatusFlags, Value(f).item))
  {
    BitAndPow2(r.StatusFlags, Value(f).item);
  }

  /**
   * When StatusFlags is `lo + 256 * hi` for bytes lo and hi, flag k reads
   * bit k of lo when k < 8 and bit k - 8 of hi otherwise.
   */
  lemma StatusBitOfBytes(r: Lnav, f: StatusFlag, lo: Byte, hi: Byte)
    requires r.StatusFlags == lo as int + 256 * (hi as int) && f != Euler
    ensures var k := Value(f).item;
      GetStatus(r, f) == Success(if k < 8 then Bit(lo, k) else Bit(hi, k - 8))
  {
    GetStatusReadsBit(r, f);
    assert Pow2(8) == 256;
    BitSplit(lo, hi, 8, Value(f).item);
  }

  /** For a decoded payload, flag k reads bit k of byte 88, or bit k - 8 of byte 89 when k >= 8. */
  lemma StatusBitOfPayload(m: seq<Byte>, f: StatusFlag)
    requires |m| == PayloadLength && f != Euler
    ensures Decode(m).Success?
    ensures var k := Value(f).item;
      GetStatus(Decode(m).value, f) == Success(if k < 8 then Bit(m[88], k) else Bit(m[89], k - 8))
  {
    DecodedStatus(m);
    StatusBitOfBytes(Decode(m).value, f, m[88], m[89]);
  }
}
