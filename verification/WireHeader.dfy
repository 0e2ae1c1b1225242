/** The fixed common header of the Parsec wire protocol: packing it for a request and parsing it
    from a response. */
module WireHeaders {
  import opened Wrappers
  import opened LittleEndian

  const MAGIC_NUMBER: u32 := 0x5EC0_A710
  const WIRE_HEADER_SIZE_VALUE: u16 := 30
  const WIRE_HEADER_SIZE: u16 := WIRE_HEADER_SIZE_VALUE + 6

  datatype WireHeader = WireHeader(
    magicNumber: u32, hdrSize: u16, versionMajor: u8, versionMinor: u8, flags: u16, provider: u8,
    session: u64, contentType: u8, acceptType: u8, authType: u8, bodyLen: u32, authLen: u16,
    opCode: u32, status: u16, reserved1: u8, reserved2: u8)

  datatype HeaderError =
    | InvalidMagicNumber | InvalidHeaderSize | InvalidVersion | InvalidFlags | InvalidProvider
    | InvalidContentType | InvalidAcceptType | InvalidAuthType | InvalidOpCode | InvalidStatus
    | ReservedNotZero

  // ---------------------------------------------------------------- valid values

  predicate IsSupportedVersion(major: u8, minor: u8) {
    major == 1 && minor == 0
  }

  predicate IsValidProvider(p: u8) {
    0 <= p <= 5
  }

  predicate IsValidAuthType(a: u8) {
    a <= 4
  }

  predicate IsValidOpCode(o: u32) {
    0x0001 <= o <= 0x001C
  }

  predicate IsValidStatus(code: u16) {
    0 <= code <= 21 || 1132 <= code <= 1152
  }

  /** The checks before packing, in order. */
  function CheckForRequest(h: WireHeader): Option<HeaderError> {
    if !IsSupportedVersion(h.versionMajor, h.versionMinor) then Some(InvalidVersion)
    else if h.flags != 0 then Some(InvalidFlags)
    else if h.contentType != 0 then Some(InvalidContentType)
    else if h.acceptType != 0 then Some(InvalidAcceptType)
    else if !IsValidAuthType(h.authType) then Some(InvalidAuthType)
    else None
  }

  /** The checks while parsing, in order. The accept type is not looked at. */
  function CheckParsed(h: WireHeader): Option<HeaderError> {
    var error := CheckEnvelope(h);
    if error.Some? then error else CheckContents(h)
  }

  /** The checks on the fields before the session. */
  function CheckEnvelope(h: WireHeader): Option<HeaderError> {
    if h.magicNumber != MAGIC_NUMBER then Some(InvalidMagicNumber)
    else if h.hdrSize != WIRE_HEADER_SIZE_VALUE then Some(InvalidHeaderSize)
    else if !IsSupportedVersion(h.versionMajor, h.versionMinor) then Some(InvalidVersion)
    else if h.flags != 0 then Some(InvalidFlags)
    else if !IsValidProvider(h.provider) then Some(InvalidProvider)
    else None
  }

  /** The checks on the fields after the session. */
  function CheckContents(h: WireHeader): Option<HeaderError> {
    if h.contentType != 0 then Some(InvalidContentType)
    else if !IsValidAuthType(h.authType) then Some(InvalidAuthType)
    else if !IsValidOpCode(h.opCode) then Some(InvalidOpCode)
    else if !IsValidStatus(h.status) then Some(InvalidStatus)
    else if h.reserved1 != 0 || h.reserved2 != 0 then Some(ReservedNotZero)
    else None
  }

  /** What each error says about a header. */
  predicate Fails(h: WireHeader, error: HeaderError) {
    match error
    case InvalidMagicNumber => h.magicNumber != 0x5EC0A710
    case InvalidHeaderSize => h.hdrSize != 30
    case InvalidVersion => !(h.versionMajor == 1 && h.versionMinor == 0)
    case InvalidFlags => h.flags != 0
    case InvalidProvider => h.provider > 5
    case InvalidContentType => h.contentType != 0
    case InvalidAcceptType => h.acceptType != 0
    case InvalidAuthType => h.authType > 4
    case InvalidOpCode => h.opCode == 0 || h.opCode > 28
    case InvalidStatus => 21 < h.status < 1132 || h.status > 1152
    case ReservedNotZero => h.reserved1 + h.reserved2 > 0
  }

  ghost predicate IsFirstAt(h: WireHeader, error: HeaderError, errors: seq<HeaderError>, k: nat) {
    k < |errors| && errors[k] == error && Fails(h, error) && forall j | 0 <= j < k :: !Fails(h, errors[j])
  }

  /** The first of the errors that applies, or none. */
  ghost predicate IsFirst(h: WireHeader, error: Option<HeaderError>, errors: seq<HeaderError>) {
    match error
    case None => forall e <- errors :: !Fails(h, e)
    case Some(e) => exists k: nat :: IsFirstAt(h, e, errors, k)
  }

  const REQUEST_ERRORS := [InvalidVersion, InvalidFlags, InvalidContentType, InvalidAcceptType, InvalidAuthType]

  const PARSE_ERRORS := [
    InvalidMagicNumber, InvalidHeaderSize, InvalidVersion, InvalidFlags, InvalidProvider, InvalidContentType,
    InvalidAuthType, InvalidOpCode, InvalidStatus, ReservedNotZero]

  /** The error is the first that applies, in the order of the fields. Packing leaves out the fields that it sets
      itself, the provider, and what only responses use; parsing leaves out the accept type. */
  lemma ChecksComeInOrder(h: WireHeader)
    ensures IsFirst(h, CheckForRequest(h), REQUEST_ERRORS)
    ensures IsFirst(h, CheckParsed(h), PARSE_ERRORS)
  {
    RequestErrorIsFirst(h);
    ParseErrorIsFirst(h);
  }

  lemma RequestErrorIsFirst(h: WireHeader)
    ensures IsFirst(h, CheckForRequest(h), REQUEST_ERRORS)
  {
    var error := CheckForRequest(h);
    if error.Some? {
      var k: nat :| k < |REQUEST_ERRORS| && REQUEST_ERRORS[k] == error.value by {
        assert REQUEST_ERRORS[0] == InvalidVersion && REQUEST_ERRORS[1] == InvalidFlags;
        assert REQUEST_ERRORS[2] == InvalidContentType && REQUEST_ERRORS[3] == InvalidAcceptType;
        assert REQUEST_ERRORS[4] == InvalidAuthType;
      }
      assert IsFirstAt(h, error.value, REQUEST_ERRORS, k);
    }
  }

  lemma ParseErrorIsFirst(h: WireHeader)
    ensures IsFirst(h, CheckParsed(h), PARSE_ERRORS)
  {
    var error := CheckParsed(h);
    if error.Some? {
      var k: nat :| k < |PARSE_ERRORS| && PARSE_ERRORS[k] == error.value by {
        assert PARSE_ERRORS[0] == InvalidMagicNumber && PARSE_ERRORS[1] == InvalidHeaderSize;
        assert PARSE_ERRORS[2] == InvalidVersion && PARSE_ERRORS[3] == InvalidFlags;
        assert PARSE_ERRORS[4] == InvalidProvider && PARSE_ERRORS[5] == InvalidContentType;
        assert PARSE_ERRORS[6] == InvalidAuthType && PARSE_ERRORS[7] == InvalidOpCode;
        assert PARSE_ERRORS[8] == InvalidStatus && PARSE_ERRORS[9] == ReservedNotZero;
      }
      assert IsFirstAt(h, error.value, PARSE_ERRORS, k);
    }
  }

  // ---------------------------------------------------------------- the layout

  /** The fields in wire order, by their width in bytes: magic number, header size, the two
      versions, flags, provider, session, content type, accept type, authentication type, body
      length, authentication length, operation code, status, and two reserved bytes. */
  function Widths(): seq<nat> {
    [4, 2, 1, 1, 2, 1, 8, 1, 1, 1, 4, 2, 4, 2, 1, 1]
  }

  lemma HeaderStarts(w: seq<nat>)
    requires w == Widths()
    ensures
      && Start(w, 0) == 0 && Start(w, 1) == 4 && Start(w, 2) == 6 && Start(w, 3) == 7
      && Start(w, 4) == 8 && Start(w, 5) == 10 && Start(w, 6) == 11 && Start(w, 7) == 19
      && Start(w, 8) == 20 && Start(w, 9) == 21 && Start(w, 10) == 22 && Start(w, 11) == 26
      && Start(w, 12) == 28 && Start(w, 13) == 32 && Start(w, 14) == 34 && Start(w, 15) == 35
      && Start(w, 16) == 36
  {
  }

  function Fields(h: WireHeader): (fields: seq<nat>)
    ensures |fields| == 16
  {
    [h.magicNumber, h.hdrSize, h.versionMajor, h.versionMinor, h.flags, h.provider, h.session, h.contentType,
     h.acceptType, h.authType, h.bodyLen, h.authLen, h.opCode, h.status, h.reserved1, h.reserved2]
  }

  lemma FieldsFit(h: WireHeader)
    ensures Fits(Widths(), Fields(h))
  {
    Pow256Values();
  }

  lemma FieldsDecideHeader(h: WireHeader, other: WireHeader)
    requires Fields(h) == Fields(other)
    ensures h == other
  {
    var f, g := Fields(h), Fields(other);
    assert f[0] == g[0] && f[1] == g[1] && f[2] == g[2] && f[3] == g[3] && f[4] == g[4] && f[5] == g[5];
    assert f[6] == g[6] && f[7] == g[7] && f[8] == g[8] && f[9] == g[9] && f[10] == g[10] && f[11] == g[11];
    assert f[12] == g[12] && f[13] == g[13] && f[14] == g[14] && f[15] == g[15];
  }

  // ---------------------------------------------------------------- bytes

  /** The 36 bytes of a header. */
  function HeaderBytes(h: WireHeader): (b: seq<u8>)
    ensures |b| == 36
  {
    HeaderStarts(Widths());
    Encode(Widths(), Fields(h), 16)
  }

  /** The header in the first 36 bytes, valid or not. */
  function HeaderIn(b: seq<u8>): WireHeader
    requires |b| >= 36
  {
    Pow256Values();
    WireHeader(UintAt(b, 0, 4), UintAt(b, 4, 2), UintAt(b, 6, 1), UintAt(b, 7, 1), UintAt(b, 8, 2), UintAt(b, 10, 1),
               UintAt(b, 11, 8), UintAt(b, 19, 1), UintAt(b, 20, 1), UintAt(b, 21, 1), UintAt(b, 22, 4),
               UintAt(b, 26, 2), UintAt(b, 28, 4), UintAt(b, 32, 2), UintAt(b, 34, 1), UintAt(b, 35, 1))
  }

  lemma FieldOfHeaderIn(w: seq<nat>, b: seq<u8>, k: nat)
    requires w == Widths() && |b| >= 36 && k < 16
    ensures Start(w, k) + w[k] <= 36
    ensures Fields(HeaderIn(b))[k] == UintAt(b, Start(w, k), w[k])
  {
    HeaderStarts(w);
    StartsAreOrdered(w, k, 16);
  }

  lemma HeaderInHeaderBytes(h: WireHeader, trailing: seq<u8>)
    ensures HeaderIn(HeaderBytes(h) + trailing) == h
  {
    var w, b := Widths(), HeaderBytes(h) + trailing;
    FieldsFit(h);
    forall k | 0 <= k < 16
      ensures Fields(HeaderIn(b))[k] == Fields(h)[k]
    {
      EncodedFieldAt(w, Fields(h), 16, trailing, k);
      FieldOfHeaderIn(w, b, k);
    }
    FieldsDecideHeader(HeaderIn(b), h);
  }

  lemma HeaderBytesOfHeaderIn(b: seq<u8>)
    requires |b| >= 36
    ensures HeaderBytes(HeaderIn(b)) == b[..36]
  {
    var w, fields := Widths(), Fields(HeaderIn(b));
    HeaderStarts(w);
    forall k | 0 <= k < 16
      ensures HoldsField(w, fields, b, k)
    {
      FieldOfHeaderIn(w, b, k);
    }
    EncodingOfFields(w, fields, 16, b);
  }

  // ---------------------------------------------------------------- buffers

  /** A byte buffer that is written at its end and consumed from its start. */
  class Buffer {
    var data: seq<u8>

    constructor (data: seq<u8>)
      ensures this.data == data
    {
      this.data := data;
    }

    /** The next `n` bytes, or what is left if there are fewer. */
    method Next(n: nat) returns (chunk: seq<u8>)
      modifies this
      ensures chunk + data == old(data)
      ensures |chunk| == if n <= |old(data)| then n else |old(data)|
    {
      var m := if n <= |data| then n else |data|;
      chunk := data[..m];
      data := data[m..];
    }

    /** Like `Next`, but reading something from an empty buffer is an end-of-file error. */
    method Read(n: nat) returns (chunk: seq<u8>, eof: bool)
      modifies this
      ensures eof <==> old(data) == [] && n > 0
      ensures chunk + data == old(data)
      ensures |chunk| == if n <= |old(data)| then n else |old(data)|
    {
      eof := |data| == 0 && n > 0;
      chunk := Next(n);
    }

    method Write(b: seq<u8>)
      modifies this
      ensures data == old(data) + b
    {
      data := data + b;
    }
  }

  /** Reads the unsigned number in the next bytes; `at` is where they are in the `whole` message. */
  method NextUint(buf: Buffer, width: nat, ghost whole: seq<u8>, ghost at: nat) returns (value: nat)
    requires at + width <= |whole| && buf.data == whole[at..]
    modifies buf
    ensures value == UintAt(whole, at, width) && buf.data == whole[at + width..]
  {
    var chunk := buf.Next(width);
    assert chunk == (chunk + buf.data)[..width] && buf.data == (chunk + buf.data)[width..];
    assert whole[at..][..width] == whole[at..at + width] && whole[at..][width..] == whole[at + width..];
    UintAtIsFromBytes(whole, at, width);
    value := FromBytes(chunk);
  }

  method NextU8(buf: Buffer, ghost whole: seq<u8>, ghost at: nat) returns (value: u8)
    requires at + 1 <= |whole| && buf.data == whole[at..]
    modifies buf
    ensures value == UintAt(whole, at, 1) && buf.data == whole[at + 1..]
  {
    Pow256Values();
    value := NextUint(buf, 1, whole, at);
  }

  method NextU16(buf: Buffer, ghost whole: seq<u8>, ghost at: nat) returns (value: u16)
    requires at + 2 <= |whole| && buf.data == whole[at..]
    modifies buf
    ensures value == UintAt(whole, at, 2) && buf.data == whole[at + 2..]
  {
    Pow256Values();
    value := NextUint(buf, 2, whole, at);
  }

  method NextU32(buf: Buffer, ghost whole: seq<u8>, ghost at: nat) returns (value: u32)
    requires at + 4 <= |whole| && buf.data == whole[at..]
    modifies buf
    ensures value == UintAt(whole, at, 4) && buf.data == whole[at + 4..]
  {
    Pow256Values();
    value := NextUint(buf, 4, whole, at);
  }

  method NextU64(buf: Buffer, ghost whole: seq<u8>, ghost at: nat) returns (value: u64)
    requires at + 8 <= |whole| && buf.data == whole[at..]
    modifies buf
    ensures value == UintAt(whole, at, 8) && buf.data == whole[at + 8..]
  {
    Pow256Values();
    value := NextUint(buf, 8, whole, at);
  }

  // ---------------------------------------------------------------- packing and parsing

  /** The header as it is sent: packing sets the magic number and the size itself. */
  function Stamped(h: WireHeader): WireHeader {
    h.(magicNumber := MAGIC_NUMBER, hdrSize := WIRE_HEADER_SIZE_VALUE)
  }

  method PackHeader(h: WireHeader, buf: Buffer) returns (stamped: WireHeader, error: Option<HeaderError>)
    modifies buf
    ensures stamped == Stamped(h) && error == CheckForRequest(h)
    ensures buf.data == if error == None then old(buf.data) + HeaderBytes(stamped) else old(buf.data)
  {
    stamped := h.(magicNumber := MAGIC_NUMBER, hdrSize := 30);
    error := CheckForRequest(stamped);
    if error == None {
      buf.Write(HeaderBytes(stamped));
    }
  }

  function ParsedHeader(b: seq<u8>): Result<WireHeader, HeaderError>
    requires |b| >= 36
  {
    var h := HeaderIn(b);
    match CheckParsed(h)
    case None => Success(h)
    case Some(e) => Failure(e)
  }

  /** The fields before the session, each checked as soon as it is read. */
  method ParseEnvelope(buf: Buffer) returns (h: WireHeader, error: Option<HeaderError>)
    requires |buf.data| >= 36
    modifies buf
    ensures error == CheckEnvelope(HeaderIn(old(buf.data)))
    ensures error == None ==> buf.data == old(buf.data)[11..]
    ensures error == None ==>
      var all := HeaderIn(old(buf.data));
      && h.magicNumber == all.magicNumber && h.hdrSize == all.hdrSize && h.versionMajor == all.versionMajor
      && h.versionMinor == all.versionMinor && h.flags == all.flags && h.provider == all.provider
  {
    ghost var whole := buf.data;
    h := WireHeader(0, 0, 0, 0, 0, 0, 0, 0, 0, 0, 0, 0, 0, 0, 0, 0);
    var magicNumber := NextU32(buf, whole, 0);
    if magicNumber != MAGIC_NUMBER {
      return h, Some(InvalidMagicNumber);
    }
    var hdrSize := NextU16(buf, whole, 4);
    if hdrSize != WIRE_HEADER_SIZE_VALUE {
      return h, Some(InvalidHeaderSize);
    }
    var versionMajor := NextU8(buf, whole, 6);
    var versionMinor := NextU8(buf, whole, 7);
    if !IsSupportedVersion(versionMajor, versionMinor) {
      return h, Some(InvalidVersion);
    }
    var flags := NextU16(buf, whole, 8);
    if flags != 0 {
      return h, Some(InvalidFlags);
    }
    var provider := NextU8(buf, whole, 10);
    if !IsValidProvider(provider) {
      return h, Some(InvalidProvider);
    }
    h := h.(magicNumber := magicNumber, hdrSize := hdrSize, versionMajor := versionMajor,
            versionMinor := versionMinor, flags := flags, provider := provider);
    return h, None;
  }

  /** Field by field, with every check as soon as its field is read. Callers hand it 36 bytes. */
  method ParseWireHeaderFromBuf(buf: Buffer) returns (r: Result<WireHeader, HeaderError>)
    requires |buf.data| >= 36
    modifies buf
    ensures r == ParsedHeader(old(buf.data))
    ensures r.Success? ==> buf.data == old(buf.data)[36..]
  {
    ghost var whole := buf.data;
    var h, error := ParseEnvelope(buf);
    if error.Some? {
      return Failure(error.value);
    }
    var session := NextU64(buf, whole, 11);
    var contentType := NextU8(buf, whole, 19);
    if contentType != 0 {
      return Failure(InvalidContentType);
    }
    var acceptType := NextU8(buf, whole, 20);
    var authType := NextU8(buf, whole, 21);
    if !IsValidAuthType(authType) {
      return Failure(InvalidAuthType);
    }
    var bodyLen := NextU32(buf, whole, 22);
    var authLen := NextU16(buf, whole, 26);
    var opCode := NextU32(buf, whole, 28);
    if !IsValidOpCode(opCode) {
      return Failure(InvalidOpCode);
    }
    var status := NextU16(buf, whole, 32);
    if !IsValidStatus(status) {
      return Failure(InvalidStatus);
    }
    var reserved1 := NextU8(buf, whole, 34);
    var reserved2 := NextU8(buf, whole, 35);
    if reserved1 != 0 || reserved2 != 0 {
      return Failure(ReservedNotZero);
    }
    return Success(h.(session := session, contentType := contentType, acceptType := acceptType, authType := authType,
                      bodyLen := bodyLen, authLen := authLen, opCode := opCode, status := status,
                      reserved1 := reserved1, reserved2 := reserved2));
  }

  /** A packed header, with anything behind it, parses back to itself exactly when the fields that
      packing does not look at are valid. */
  lemma PackedHeaderParsesBack(h: WireHeader, trailing: seq<u8>)
    requires CheckForRequest(h) == None
    ensures
      ParsedHeader(HeaderBytes(Stamped(h)) + trailing) == Success(Stamped(h)) <==>
      && IsValidProvider(h.provider) && IsValidOpCode(h.opCode) && IsValidStatus(h.status)
      && h.reserved1 == 0 && h.reserved2 == 0
  {
    HeaderInHeaderBytes(Stamped(h), trailing);
  }

  /** Bytes that the parser accepts pack again to the same bytes exactly when they name no accept
      type: the parser allows one, a request must not carry one. */
  lemma ParsedHeaderPacksBack(b: seq<u8>)
    requires |b| >= 36 && ParsedHeader(b).Success?
    ensures
      var h := ParsedHeader(b).value;
      && HeaderBytes(Stamped(h)) == b[..36]
      && (CheckForRequest(h) == None <==> h.acceptType == 0)
  {
    HeaderBytesOfHeaderIn(b);
    assert Stamped(HeaderIn(b)) == HeaderIn(b);
  }

  // ---------------------------------------------------------------- the bytes

  /** Numbers of two and of four bytes, the lowest first. */
  function Two(b0: nat, b1: nat): nat {
    b0 + 0x100 * b1
  }

  function Four(b0: nat, b1: nat, b2: nat, b3: nat): nat {
    b0 + 0x100 * b1 + 0x1_0000 * b2 + 0x100_0000 * b3
  }

  lemma OneByte(b: seq<u8>, at: nat)
    requires at + 1 <= |b|
    ensures UintAt(b, at, 1) == b[at]
  {
    assert UintAt(b, at + 1, 0) == 0;
  }

  lemma TwoBytes(b: seq<u8>, at: nat)
    requires at + 2 <= |b|
    ensures UintAt(b, at, 2) == Two(b[at], b[at + 1])
  {
    OneByte(b, at + 1);
  }

  lemma FourBytes(b: seq<u8>, at: nat)
    requires at + 4 <= |b|
    ensures UintAt(b, at, 4) == Four(b[at], b[at + 1], b[at + 2], b[at + 3])
  {
    TwoBytes(b, at + 2);
    assert UintAt(b, at + 1, 3) == b[at + 1] + 256 * UintAt(b, at + 2, 2);
  }

  lemma FieldsOfBytes(b: seq<u8>)
    requires |b| >= 36
    ensures
      var h := HeaderIn(b);
      && Four(b[0], b[1], b[2], b[3]) == h.magicNumber && Two(b[4], b[5]) == h.hdrSize
      && b[6] == h.versionMajor && b[7] == h.versionMinor && Two(b[8], b[9]) == h.flags && b[10] == h.provider
      && b[19] == h.contentType && b[20] == h.acceptType && b[21] == h.authType
      && Four(b[22], b[23], b[24], b[25]) == h.bodyLen && Two(b[26], b[27]) == h.authLen
      && Four(b[28], b[29], b[30], b[31]) == h.opCode && Two(b[32], b[33]) == h.status
      && b[34] == h.reserved1 && b[35] == h.reserved2
  {
    FourBytes(b, 0);
    FourBytes(b, 22);
    FourBytes(b, 28);
    TwoBytes(b, 4);
    TwoBytes(b, 8);
    TwoBytes(b, 26);
    TwoBytes(b, 32);
    OneByte(b, 6);
    OneByte(b, 7);
    OneByte(b, 10);
    OneByte(b, 19);
    OneByte(b, 20);
    OneByte(b, 21);
    OneByte(b, 34);
    OneByte(b, 35);
  }

  lemma MagicBytes(b0: u8, b1: u8, b2: u8, b3: u8, b4: u8, b5: u8)
    requires Four(b0, b1, b2, b3) == MAGIC_NUMBER && Two(b4, b5) == WIRE_HEADER_SIZE_VALUE
    ensures [b0, b1, b2, b3, b4, b5] == [0x10, 0xA7, 0xC0, 0x5E, 30, 0]
  {}

  /** The bytes of a packed header, one by one: the magic number and the size first, numbers with their lowest byte
      first. */
  lemma PackedBytes(h: WireHeader, trailing: seq<u8>)
    ensures
      var b := HeaderBytes(Stamped(h)) + trailing;
      && b[..6] == [0x10, 0xA7, 0xC0, 0x5E, 30, 0]
      && b[6] == h.versionMajor && b[7] == h.versionMinor
      && Two(b[8], b[9]) == h.flags
      && b[10] == h.provider
      && UintAt(b, 11, 8) == h.session
      && b[19] == h.contentType && b[20] == h.acceptType && b[21] == h.authType
      && Four(b[22], b[23], b[24], b[25]) == h.bodyLen
      && Two(b[26], b[27]) == h.authLen
      && Four(b[28], b[29], b[30], b[31]) == h.opCode
      && Two(b[32], b[33]) == h.status
      && b[34] == h.reserved1 && b[35] == h.reserved2
  {
    var b := HeaderBytes(Stamped(h)) + trailing;
    HeaderInHeaderBytes(Stamped(h), trailing);
    FieldsOfBytes(b);
    MagicBytes(b[0], b[1], b[2], b[3], b[4], b[5]);
    assert b[..6] == [b[0], b[1], b[2], b[3], b[4], b[5]];
  }
}
