/**
 Authenticator data as main.go writes it, with a reference parser for the layout of
 section 6.1 of WebAuthn.
 */
module AuthData {
  import opened Bytes

  const FLAG_UP: byte := 0x01
  const FLAG_UV: byte := 0x04
  const FLAG_AT: byte := 0x40

  /** The flags byte: user present, user verified if the verifier identifies the user, and
      attested credential data if there is any. */
  function Flags(uv: bool, attested: bool): byte {
    FLAG_UP + (if uv then FLAG_UV else 0) + (if attested then FLAG_AT else 0)
  }

  function Head(rpIdHash: seq<byte>, flags: byte, counter: u32): seq<byte> {
    rpIdHash + [flags] + U32(counter)
  }

  /** The buffer of MakeCredential; the length of the handle is written as a 16-bit word. */
  function Attested(rpIdHash: seq<byte>, flags: byte, counter: u32, handle: seq<byte>, key: seq<byte>): seq<byte> {
    Head(rpIdHash, flags, counter) + Zeros(16) + U16(|handle| % 0x1_0000) + handle + key
  }

  datatype Credential = Credential(aaguid: seq<byte>, id: seq<byte>, key: seq<byte>)

  datatype Parsed = Parsed(rpIdHash: seq<byte>, flags: byte, counter: u32, credential: Option<Credential>)

  predicate HasFlag(flags: byte, bit: byte)
    requires bit > 0
  {
    flags / bit % 2 == 1
  }

  /** Reference parser: hash, flags, counter, and with the AT flag the credential that fills the rest. */
  function Parse(data: seq<byte>): Option<Parsed> {
    if |data| < 37 then None else
    var head := Parsed(data[..32], data[32], ReadU32(data[33..37]), None);
    if !HasFlag(data[32], 0x40) then (if |data| == 37 then Some(head) else None)
    else if |data| < 55 then None
    else
      var n := ReadU16(data[53..55]);
      if |data| < 55 + n then None
      else Some(head.(credential := Some(Credential(data[37..53], data[55..55 + n], data[55 + n..]))))
  }

  /** Bit 0 is user present, bit 2 user verified, bit 6 attested credential data; no other is set. */
  lemma FlagsSayWhatTheyMean(uv: bool, attested: bool)
    ensures HasFlag(Flags(uv, attested), 0x01)
    ensures HasFlag(Flags(uv, attested), 0x04) <==> uv
    ensures HasFlag(Flags(uv, attested), 0x40) <==> attested
    ensures forall bit: byte :: bit in {0x02, 0x08, 0x10, 0x20, 0x80} ==> !HasFlag(Flags(uv, attested), bit)
  {}

  /** GetAssertion's authenticator data parses back to what it was made of. */
  lemma AssertionDataParses(rpIdHash: seq<byte>, uv: bool, counter: u32)
    requires |rpIdHash| == 32
    ensures Parse(Head(rpIdHash, Flags(uv, false), counter)) == Some(Parsed(rpIdHash, Flags(uv, false), counter, None))
  {
    var data := Head(rpIdHash, Flags(uv, false), counter);
    U32RoundTrip(counter);
    assert data[..32] == rpIdHash && data[33..37] == U32(counter);
    FlagsSayWhatTheyMean(uv, false);
  }

  /** MakeCredential's authenticator data parses back to its own hash, flags, counter, handle and key
      exactly when the handle is shorter than 65536 bytes: the length word wraps around. */
  lemma AttestedDataParses(rpIdHash: seq<byte>, uv: bool, counter: u32, handle: seq<byte>, key: seq<byte>)
    requires |rpIdHash| == 32
    ensures Parse(Attested(rpIdHash, Flags(uv, true), counter, handle, key))
         == Some(Parsed(rpIdHash, Flags(uv, true), counter, Some(Credential(Zeros(16), handle, key))))
       <==> |handle| < 0x1_0000
  {
    var flags := Flags(uv, true);
    FlagsSayWhatTheyMean(uv, true);
    hide Zeros, U16, U32, ReadU16, ReadU32, HasFlag, Flags;
    var data := Attested(rpIdHash, flags, counter, handle, key);
    var n: u16 := |handle| % 0x1_0000;
    U32RoundTrip(counter);
    U16RoundTrip(n);
    assert data[..32] == rpIdHash;
    assert data[33..37] == U32(counter);
    assert data[37..53] == Zeros(16);
    assert data[53..55] == U16(n);
    assert data[55..] == handle + key;
    assert data[55..55 + n] == handle[..n];
    if |handle| < 0x1_0000 {
      assert handle[..n] == handle;
      assert data[55 + n..] == key;
    }
  }
}
