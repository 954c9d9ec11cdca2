/**
 The U2F request decoder of fidoauth/fidoauth.go, with a reference encoder for the
 extended-length request messages of FIDO U2F Raw Message Formats v1.2, sections 4 and 5.
 */
module Apdu {
  import opened Bytes

  const CMD_REGISTER: byte := 0x01
  const CMD_AUTHENTICATE: byte := 0x02
  const CMD_VERSION: byte := 0x03

  const CTRL_CHECK_ONLY: byte := 0x07
  const CTRL_ENFORCE_PRESENCE: byte := 0x03
  const CTRL_DONT_ENFORCE_PRESENCE: byte := 0x08

  datatype RegisterReq = RegisterReq(challenge: seq<byte>, application: seq<byte>)

  datatype AuthReq = AuthReq(ctrl: byte, challenge: seq<byte>, application: seq<byte>, keyHandle: seq<byte>)

  datatype Request = Request(
    command: byte, param1: byte, data: seq<byte>,
    register: Option<RegisterReq>, authenticate: Option<AuthReq>)

  datatype DecodeError = TooShort | RegisterSize | AuthenticateSize | UnknownCtrl | HandleTruncated

  datatype Decoded = Ok(req: Request) | Err(error: DecodeError)

  predicate KnownCtrl(c: byte) {
    c == CTRL_CHECK_ONLY || c == CTRL_ENFORCE_PRESENCE || c == CTRL_DONT_ENFORCE_PRESENCE
  }

  /** What a request means, read at fixed offsets of the message. */
  function Meaning(raw: seq<byte>): Decoded {
    if |raw| < 7 then Err(TooShort)
    else if raw[1] == CMD_REGISTER then
      if |raw| < 71 then Err(RegisterSize)
      else Ok(Request(raw[1], raw[2], raw[7..], Some(RegisterReq(raw[7..39], raw[39..71])), None))
    else if raw[1] == CMD_AUTHENTICATE then
      if |raw| < 73 then Err(AuthenticateSize)
      else if !KnownCtrl(raw[2]) then Err(UnknownCtrl)
      else if |raw| < 72 + raw[71] as int then Err(HandleTruncated)
      else Ok(Request(raw[1], raw[2], raw[7..], None,
                      Some(AuthReq(raw[2], raw[7..39], raw[39..71], raw[72..72 + raw[71] as int]))))
    else Ok(Request(raw[1], raw[2], raw[7..], None, None))
  }

  /** Go's `copy`: as many bytes as both sides hold, the rest of `dst` untouched. */
  method Copy(dst: array<byte>, src: seq<byte>)
    modifies dst
    ensures forall i :: 0 <= i < dst.Length ==> dst[i] == if i < |src| then src[i] else old(dst[i])
  {
    var i := 0;
    while i < dst.Length && i < |src|
      invariant 0 <= i <= dst.Length && i <= |src|
      invariant forall j :: 0 <= j < i ==> dst[j] == src[j]
      invariant forall j :: i <= j < dst.Length ==> dst[j] == old(dst[j])
    {
      dst[i] := src[i];
      i := i + 1;
    }
  }

  method DecodeAuthenticatorRequest(raw: seq<byte>) returns (r: Decoded)
    ensures r == Meaning(raw)
  {
    if |raw| < 7 {
      return Err(TooShort);
    }
    var req := Request(raw[1], raw[2], raw[7..], None, None);
    var challenge, application := new byte[32](_ => 0), new byte[32](_ => 0);
    if req.command == CMD_REGISTER {
      if |req.data| < 64 {
        return Err(RegisterSize);
      }
      Copy(challenge, req.data[..32]);
      Copy(application, req.data[32..]);
      assert challenge[..] == raw[7..39];
      assert application[..] == raw[39..71];
      req := req.(register := Some(RegisterReq(challenge[..], application[..])));
    } else if req.command == CMD_AUTHENTICATE {
      if |req.data| < 66 {
        return Err(AuthenticateSize);
      }
      var ctrl := req.param1;
      if !KnownCtrl(ctrl) {
        return Err(UnknownCtrl);
      }
      var data := req.data;
      Copy(challenge, data[..32]);
      data := data[32..];
      Copy(application, data[..32]);
      data := data[32..];
      assert data == raw[71..];
      var khLen := data[0];
      data := data[1..];
      if |data| < khLen {
        return Err(HandleTruncated);
      }
      assert challenge[..] == raw[7..39];
      assert application[..] == raw[39..71];
      assert data[..khLen] == raw[72..72 + khLen];
      req := req.(authenticate := Some(AuthReq(ctrl, challenge[..], application[..], data[..khLen])));
    }
    return Ok(req);
  }

  /** The reference encoder: header, the fixed fields, then any trailing bytes (such as Le). */
  function EncodeRegister(cla: byte, p1: byte, p2: byte, lc: seq<byte>, req: RegisterReq,
      trailing: seq<byte>): seq<byte> {
    [cla, 0x01, p1, p2] + lc + req.challenge + req.application + trailing
  }

  function EncodeAuthenticate(cla: byte, p2: byte, lc: seq<byte>, req: AuthReq, trailing: seq<byte>): seq<byte>
    requires |req.keyHandle| < 0x100
  {
    [cla, 0x02, req.ctrl, p2] + lc + req.challenge + req.application
    + [|req.keyHandle|] + req.keyHandle + trailing
  }

  ghost predicate FixedWidths(lc: seq<byte>, challenge: seq<byte>, application: seq<byte>) {
    |lc| == 3 && |challenge| == 32 && |application| == 32
  }

  /** Exactly which messages decode, and to which kind of request: registrations want 64 data bytes,
      authentications 66, a known control byte and the whole handle, and every other command only the
      header. */
  lemma DecodesExactly(raw: seq<byte>)
    ensures Meaning(raw).Ok? <==>
              && |raw| >= 7 && (raw[1] == 0x01 ==> |raw| >= 71)
              && (raw[1] == 0x02 ==> |raw| >= 73 && raw[2] in {0x03, 0x07, 0x08} && |raw| >= 72 + raw[71] as int)
    ensures Meaning(raw).Ok? ==>
              var req := Meaning(raw).req;
              && req.command == raw[1] && req.param1 == raw[2] && req.data == raw[7..]
              && (req.register.Some? <==> raw[1] == 0x01) && (req.authenticate.Some? <==> raw[1] == 0x02)
              && (raw[1] == 0x01 ==> req.register.value == RegisterReq(raw[7..39], raw[39..71]))
  {}

  lemma AuthenticateLayout(cla: byte, p2: byte, lc: seq<byte>, req: AuthReq, trailing: seq<byte>)
    requires FixedWidths(lc, req.challenge, req.application) && |req.keyHandle| < 0x100
    ensures var raw := EncodeAuthenticate(cla, p2, lc, req, trailing);
            && |raw| == 72 + |req.keyHandle| + |trailing|
            && raw[1] == 0x02 && raw[2] == req.ctrl && raw[71] == |req.keyHandle|
            && raw[7..39] == req.challenge && raw[39..71] == req.application
            && raw[72..72 + |req.keyHandle|] == req.keyHandle
  {}

  /** An encoded authenticate request is decoded to its own fields exactly when its control byte
      is known and something follows the length byte: the decoder wants 66 data bytes, so an empty
      handle without trailing bytes is refused. */
  lemma AuthenticateRoundTrip(cla: byte, p2: byte, lc: seq<byte>, req: AuthReq, trailing: seq<byte>)
    requires FixedWidths(lc, req.challenge, req.application) && |req.keyHandle| < 0x100
    ensures var d := Meaning(EncodeAuthenticate(cla, p2, lc, req, trailing));
            (d.Ok? && d.req.authenticate == Some(req))
            <==> req.ctrl in {0x03, 0x07, 0x08} && |req.keyHandle| + |trailing| > 0
  {
    AuthenticateLayout(cla, p2, lc, req, trailing);
  }

  lemma RegisterRoundTrip(cla: byte, p1: byte, p2: byte, lc: seq<byte>, req: RegisterReq, trailing: seq<byte>)
    requires FixedWidths(lc, req.challenge, req.application)
    ensures var d := Meaning(EncodeRegister(cla, p1, p2, lc, req, trailing));
            d.Ok? && d.req.register == Some(req) && d.req.authenticate == None
  {
    var raw := EncodeRegister(cla, p1, p2, lc, req, trailing);
    assert raw[7..39] == req.challenge;
    assert raw[39..71] == req.application;
  }

  /** Whatever the decoder accepts as an authenticate request is an encoding of what it returned:
      only class, parameter 2 and the length field are not looked at. */
  lemma AuthenticateIsCanonical(raw: seq<byte>)
    requires Meaning(raw).Ok? && Meaning(raw).req.authenticate.Some?
    ensures var req := Meaning(raw).req.authenticate.value;
            && FixedWidths(raw[4..7], req.challenge, req.application) && |req.keyHandle| < 0x100
            && req.ctrl in {0x03, 0x07, 0x08}
            && raw == EncodeAuthenticate(raw[0], raw[3], raw[4..7], req, raw[72 + |req.keyHandle|..])
  {
    var req := Meaning(raw).req.authenticate.value;
    var n := |req.keyHandle|;
    assert raw == raw[..7] + raw[7..39] + raw[39..71] + raw[71..72] + raw[72..72 + n] + raw[72 + n..];
    assert raw[..7] == [raw[0], raw[1], raw[2], raw[3]] + raw[4..7];
  }
}
