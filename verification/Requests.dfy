/** Requests and responses of the Parsec wire protocol: a header, a body, and for requests an
    authentication token. */
module Requests {
  import opened Wrappers
  import opened LittleEndian
  import opened WireHeaders

  const MAX_UINT16: nat := 0xFFFF
  const UINT32_VALUES: nat := 0x1_0000_0000

  // ---------------------------------------------------------------- requests

  datatype AuthToken = AuthToken(authType: u8, data: seq<u8>)

  datatype RequestError = MarshalFailed | AuthenticatorFailed | AuthTokenTooLong

  function RequestHeader(op: u32, body: seq<u8>, token: AuthToken, provider: u8): WireHeader
    requires |token.data| <= MAX_UINT16
  {
    WireHeader(0, 0, 1, 0, 0, provider, 0, 0, 0, token.authType, |body| % UINT32_VALUES, |token.data|, op, 0, 0, 0)
  }

  class Request {
    var header: WireHeader
    const body: seq<u8>
    const auth: AuthToken

    constructor (header: WireHeader, body: seq<u8>, auth: AuthToken)
      ensures this.header == header && this.body == body && this.auth == auth
    {
      this.header := header;
      this.body := body;
      this.auth := auth;
    }

    /** Packs the request into a new buffer, or reports what is wrong with its header. */
    method Pack() returns (buf: Buffer?, error: Option<HeaderError>)
      modifies this
      ensures error == CheckForRequest(old(header))
      ensures error == None ==> buf != null && fresh(buf) && buf.data == RequestBytes(old(header), body, auth.data)
      ensures error != None ==> buf == null
      ensures header == if error == None then Stamped(old(header)) else old(header)
    {
      error := CheckForRequest(header);
      if error.Some? {
        return null, error;
      }
      buf := new Buffer([]);
      header, error := PackHeader(header, buf);
      if error.Some? {
        return null, error;
      }
      buf.Write(body);
      buf.Write(auth.data);
    }
  }

  /** The marshalled body and the token come from outside, and both can fail to be made. */
  method NewRequest(op: u32, marshalled: Option<seq<u8>>, token: Option<AuthToken>, provider: u8)
    returns (r: Result<Request, RequestError>)
    ensures r.Success? <==> marshalled.Some? && token.Some? && |token.value.data| <= MAX_UINT16
    ensures r.Failure? ==>
      r.error == if marshalled.None? then MarshalFailed
                 else if token.None? then AuthenticatorFailed else AuthTokenTooLong
    ensures r.Success? ==>
      && fresh(r.value) && r.value.body == marshalled.value && r.value.auth == token.value
      && r.value.header == RequestHeader(op, marshalled.value, token.value, provider)
  {
    if marshalled.None? {
      return Failure(MarshalFailed);
    }
    if token.None? {
      return Failure(AuthenticatorFailed);
    }
    var authBufLen := |token.value.data|;
    if authBufLen > MAX_UINT16 {
      return Failure(AuthTokenTooLong);
    }
    var header := RequestHeader(op, marshalled.value, token.value, provider);
    var request := new Request(header, marshalled.value, token.value);
    return Success(request);
  }

  function RequestBytes(h: WireHeader, body: seq<u8>, auth: seq<u8>): seq<u8> {
    HeaderBytes(Stamped(h)) + body + auth
  }

  /** A packed request is as long as its parts. A reader who goes by the lengths in the header finds
      the body and the token exactly when the body length fits in 32 bits; otherwise the length in
      the header has wrapped around. */
  lemma PackedRequestIsReadable(op: u32, body: seq<u8>, token: AuthToken, provider: u8)
    requires |token.data| <= MAX_UINT16
    ensures
      var b := RequestBytes(RequestHeader(op, body, token, provider), body, token.data);
      var h := HeaderIn(b);
      && |b| == 36 + |body| + |token.data|
      && h.opCode == op && h.provider == provider && h.authType == token.authType
      && 36 + h.bodyLen + h.authLen <= |b|
      && (b[36..36 + h.bodyLen] == body && b[36 + h.bodyLen..36 + h.bodyLen + h.authLen] == token.data
          <==> |body| < UINT32_VALUES)
  {
    var header := RequestHeader(op, body, token, provider);
    var b := RequestBytes(header, body, token.data);
    assert b == HeaderBytes(Stamped(header)) + (body + token.data);
    HeaderInHeaderBytes(Stamped(header), body + token.data);
    var h := HeaderIn(b);
    assert b[36..36 + |body|] == body && b[36 + |body|..] == token.data;
    if |body| >= UINT32_VALUES {
      assert |b[36..36 + h.bodyLen]| < |body|;
    }
  }

  /** A new request can be packed exactly when its token has one of the known types, 0 to 4, whatever the operation,
      the body and the provider. */
  lemma NewRequestPacksIff(op: u32, body: seq<u8>, token: AuthToken, provider: u8)
    requires |token.data| <= MAX_UINT16
    ensures CheckForRequest(RequestHeader(op, body, token, provider)) == None <==> token.authType <= 4
    ensures
      token.authType > 4 ==> CheckForRequest(RequestHeader(op, body, token, provider)) == Some(InvalidAuthType)
  {}

  /** The bytes in front of the body of a packed request: magic number, size, version 1.0 and no flags; the provider,
      no session, and content and accept type 0; the type of the token; the two lengths, the operation, status 0 and
      nothing in the reserved bytes. */
  lemma BytesOfNewRequest(op: u32, body: seq<u8>, token: AuthToken, provider: u8)
    requires |token.data| <= MAX_UINT16
    ensures
      var b := RequestBytes(RequestHeader(op, body, token, provider), body, token.data);
      && |b| == 36 + |body| + |token.data|
      && b[..11] == [0x10, 0xA7, 0xC0, 0x5E, 30, 0, 1, 0, 0, 0, provider]
      && b[11..22] == [0, 0, 0, 0, 0, 0, 0, 0, 0, 0, token.authType]
      && Four(b[22], b[23], b[24], b[25]) == |body| % UINT32_VALUES
      && Two(b[26], b[27]) == |token.data|
      && Four(b[28], b[29], b[30], b[31]) == op
      && b[32..36] == [0, 0, 0, 0]
  {
    var header := RequestHeader(op, body, token, provider);
    var b := RequestBytes(header, body, token.data);
    assert b == HeaderBytes(Stamped(header)) + (body + token.data);
    PackedBytes(header, body + token.data);
    assert b[..11] == b[..6] + [b[6], b[7], b[8], b[9], b[10]];
    NoSession(b);
    assert b[11..22] == b[11..19] + [b[19], b[20], b[21]];
  }

  lemma NoSession(b: seq<u8>)
    requires |b| >= 36 && UintAt(b, 11, 8) == 0
    ensures b[11..19] == [0, 0, 0, 0, 0, 0, 0, 0]
  {
    BytesOfUintAt(b, 11, 8);
  }

  // ---------------------------------------------------------------- responses

  datatype ResponseError =
    | NilBuffer | NilMessage | HeaderReadFailed | HeaderUnderflow(got: nat) | BadHeader(reason: HeaderError)
    | UnexpectedOpCode(opCode: u32) | BodyReadFailed | BodyUnderflow(got: nat) | UnmarshalFailed
    | BadStatus(status: u16)

  /** The message a response is unmarshalled into, by the bytes it was last given. */
  class Message {
    var received: Option<seq<u8>>

    method Unmarshal(bytes: seq<u8>, decodes: seq<u8> -> bool) returns (ok: bool)
      modifies this
      ensures received == Some(bytes) && ok == decodes(bytes)
    {
      received := Some(bytes);
      ok := decodes(bytes);
    }
  }

  /** The body that a response buffer hands on to the message, or why it hands on none. */
  function BodyOf(expected: u32, data: seq<u8>): Result<seq<u8>, ResponseError> {
    if data == [] then Failure(HeaderReadFailed)
    else if |data| < 36 then Failure(HeaderUnderflow(|data|))
    else
      match ParsedHeader(data)
      case Failure(e) => Failure(BadHeader(e))
      case Success(h) =>
        var rest := data[36..];
        if h.opCode != expected then Failure(UnexpectedOpCode(h.opCode))
        else if rest == [] && h.bodyLen > 0 then Failure(BodyReadFailed)
        else if |rest| < h.bodyLen then Failure(BodyUnderflow(|rest|))
        else Success(rest[..h.bodyLen])
  }

  method ParseResponse(expected: u32, buf: Buffer?, message: Message?, decodes: seq<u8> -> bool)
    returns (error: Option<ResponseError>)
    modifies buf, message
    ensures buf == null ==> error == Some(NilBuffer)
    ensures buf != null && message == null ==> error == Some(NilMessage) && buf.data == old(buf.data)
    ensures buf != null && message != null ==>
      match BodyOf(expected, old(buf.data))
      case Failure(e) => error == Some(e) && message.received == old(message.received)
      case Success(body) =>
        && message.received == Some(body)
        && old(buf.data) == old(buf.data)[..36] + body + buf.data
        && error == if !decodes(body) then Some(UnmarshalFailed)
                    else if HeaderIn(old(buf.data)).status != 0 then Some(BadStatus(HeaderIn(old(buf.data)).status))
                    else None
  {
    if buf == null {
      return Some(NilBuffer);
    }
    if message == null {
      return Some(NilMessage);
    }
    ghost var data := buf.data;
    var hdrBytes, eof := buf.Read(WIRE_HEADER_SIZE);
    if eof {
      return Some(HeaderReadFailed);
    }
    if |hdrBytes| != WIRE_HEADER_SIZE {
      return Some(HeaderUnderflow(|hdrBytes|));
    }
    assert data[..36] == hdrBytes && data[36..] == buf.data;
    HeaderInFirstBytes(data);
    var hdrBuf := new Buffer(hdrBytes);
    var parsed := ParseWireHeaderFromBuf(hdrBuf);
    if parsed.Failure? {
      return Some(BadHeader(parsed.error));
    }
    var header := parsed.value;
    if header.opCode != expected {
      return Some(UnexpectedOpCode(header.opCode));
    }
    var body;
    body, eof := buf.Read(header.bodyLen);
    if eof {
      return Some(BodyReadFailed);
    }
    if |body| != header.bodyLen {
      return Some(BodyUnderflow(|body|));
    }
    assert data[36..][..header.bodyLen] == body;
    var ok := message.Unmarshal(body, decodes);
    if !ok {
      return Some(UnmarshalFailed);
    }
    error := if header.status == 0 then None else Some(BadStatus(header.status));
  }

  lemma HeaderInFirstBytes(data: seq<u8>)
    requires |data| >= 36
    ensures HeaderIn(data[..36]) == HeaderIn(data)
  {
    HeaderBytesOfHeaderIn(data);
    HeaderInHeaderBytes(HeaderIn(data), []);
    assert HeaderBytes(HeaderIn(data)) + [] == data[..36];
  }

  /** A body is handed on exactly when the data are the packed form of a valid header for the expected
      operation, then that body, of the length the header names, then anything at all. */
  lemma HandsOnExactlyTheBody(expected: u32, data: seq<u8>, body: seq<u8>)
    ensures
      BodyOf(expected, data) == Success(body) <==>
      exists h: WireHeader, trailing: seq<u8> :: IsFrame(expected, h, body) && data == Framed(h, body) + trailing
  {
    if BodyOf(expected, data) == Success(body) {
      var h, trailing := HeaderIn(data), data[36 + |body|..];
      HeaderBytesOfHeaderIn(data);
      assert data == data[..36] + data[36..36 + |body|] + trailing;
      assert IsFrame(expected, h, body) && data == Framed(h, body) + trailing;
    }
    forall h: WireHeader, trailing: seq<u8> | IsFrame(expected, h, body) && data == Framed(h, body) + trailing
      ensures BodyOf(expected, data) == Success(body)
    {
      FrameIsReadBack(expected, h, body, trailing);
    }
  }

  predicate IsFrame(expected: u32, h: WireHeader, body: seq<u8>) {
    CheckParsed(h) == None && h.opCode == expected && |body| == h.bodyLen
  }

  function Framed(h: WireHeader, body: seq<u8>): seq<u8> {
    HeaderBytes(h) + body
  }

  lemma FrameIsReadBack(expected: u32, h: WireHeader, body: seq<u8>, trailing: seq<u8>)
    requires IsFrame(expected, h, body)
    ensures HeaderIn(Framed(h, body) + trailing) == h
    ensures BodyOf(expected, Framed(h, body) + trailing) == Success(body)
  {
    var data := Framed(h, body) + trailing;
    assert data == HeaderBytes(h) + (body + trailing);
    HeaderInHeaderBytes(h, body + trailing);
    assert data[36..] == body + trailing && (body + trailing)[..|body|] == body;
  }

  /** Nothing shorter than header and body is taken for a response. */
  lemma StrictPrefixIsRejected(expected: u32, h: WireHeader, body: seq<u8>, n: nat)
    requires IsFrame(expected, h, body) && n < 36 + |body|
    ensures
      BodyOf(expected, Framed(h, body)[..n]) ==
      Failure(if n == 0 then HeaderReadFailed else if n < 36 then HeaderUnderflow(n)
              else if n == 36 then BodyReadFailed else BodyUnderflow(n - 36))
  {
    if n >= 36 {
      var data := Framed(h, body)[..n];
      assert data == HeaderBytes(h) + body[..n - 36];
      HeaderInHeaderBytes(h, body[..n - 36]);
    }
  }

  /** A response with a whole header is rejected for the first thing that is wrong with the header, or else for another
      operation than the expected one, whatever comes behind the header. */
  lemma BadHeaderIsRejected(expected: u32, h: WireHeader, rest: seq<u8>)
    ensures
      var r := BodyOf(expected, HeaderBytes(h) + rest);
      && (CheckParsed(h) != None ==> r == Failure(BadHeader(CheckParsed(h).value)))
      && (CheckParsed(h) == None && h.opCode != expected ==> r == Failure(UnexpectedOpCode(h.opCode)))
  {
    HeaderInHeaderBytes(h, rest);
  }

  /** Of all status codes, exactly 0 to 21 and 1132 to 1152 are known: a response with another one is rejected with its
      header, and with one of these its body is handed on. */
  lemma KnownStatuses(expected: u32, h: WireHeader, body: seq<u8>, trailing: seq<u8>)
    requires IsFrame(expected, h.(status := 0), body)
    ensures
      BodyOf(expected, Framed(h, body) + trailing) ==
      if h.status <= 21 || 1132 <= h.status <= 1152 then Success(body) else Failure(BadHeader(InvalidStatus))
  {
    var data := Framed(h, body) + trailing;
    assert data == HeaderBytes(h) + (body + trailing);
    HeaderInHeaderBytes(h, body + trailing);
    assert data[36..] == body + trailing && (body + trailing)[..|body|] == body;
  }
}
