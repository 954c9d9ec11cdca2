/**
 TPM key handles (tpm/tpm.go): `RegisterKey` packs the private part, the public part and the seed
 as three records tagged "TPM"; `SignASN1` takes exactly three records and nothing more.
 */
module KeyHandle {
  import opened Bytes
  import opened Lencode

  const TAG: seq<byte> := [0x54, 0x50, 0x4D]

  datatype Parts = Parts(priv: seq<byte>, pub: seq<byte>, seed: seq<byte>)

  function List(p: Parts): seq<seq<byte>> {
    [p.priv, p.pub, p.seed]
  }

  predicate Packable(p: Parts) {
    Short(p.priv) && Short(p.pub) && Short(p.seed)
  }

  lemma EncodeNothing(sep: Option<seq<byte>>)
    ensures EncodeRun(None, sep, []) == EncState([], None)
  {}

  /** The three `Encode` calls, whose errors `RegisterKey` does not look at. */
  method Pack(p: Parts) returns (handle: seq<byte>)
    ensures handle == Encoded(TAG, Accepted(List(p)))
  {
    var out := new Writer(None);
    var enc := new Encoder(out, Some(TAG));
    hide EncodeStep, EncodeRun;
    EncodeRunSnoc(None, Some(TAG), [], p.priv);
    EncodeRunSnoc(None, Some(TAG), [p.priv], p.pub);
    EncodeRunSnoc(None, Some(TAG), [p.priv, p.pub], p.seed);
    assert [] + [p.priv] == [p.priv] && [p.priv] + [p.pub] == [p.priv, p.pub] && [p.priv, p.pub] + [p.seed] == List(p);
    EncodeNothing(Some(TAG));
    var e := enc.Encode(p.priv);
    e := enc.Encode(p.pub);
    e := enc.Encode(p.seed);
    EncoderOverRun(None, Some(TAG), List(p));
    handle := out.written;
  }

  /** The parts of a handle, if it holds exactly three records. */
  function PartsOf(handle: seq<byte>): Option<Parts> {
    var (ms, e) := DecodeAll(TAG, handle);
    if |ms| == 3 && e == Eof then Some(Parts(ms[0], ms[1], ms[2])) else None
  }

  method Parse(handle: seq<byte>) returns (r: Option<Parts>)
    ensures r == PartsOf(handle)
  {
    hide PrefixStep, IntoStep;
    var reader := new Reader(handle);
    var dec := new Decoder(reader, TAG);
    var priv := dec.Decode();
    if !priv.Done? {
      return None;
    }
    DecodeReadsRecord(TAG, handle);
    ghost var rest1 := reader.rest;
    assert DecodeAll(TAG, handle).0 == [priv.value] + DecodeAll(TAG, rest1).0;
    var pub := dec.Decode();
    if !pub.Done? {
      return None;
    }
    DecodeReadsRecord(TAG, rest1);
    ghost var rest2 := reader.rest;
    assert DecodeAll(TAG, rest1).0 == [pub.value] + DecodeAll(TAG, rest2).0;
    var seed := dec.Decode();
    if !seed.Done? {
      return None;
    }
    DecodeReadsRecord(TAG, rest2);
    ghost var rest3 := reader.rest;
    assert DecodeAll(TAG, rest2).0 == [seed.value] + DecodeAll(TAG, rest3).0;
    var last := dec.Decode();
    if last != Failed(Eof) {
      return None;
    }
    r := Some(Parts(priv.value, pub.value, seed.value));
  }

  /** A handle is accepted exactly when it is the concatenation of three tagged records, and then
      its parts are the only ones it is made of. */
  lemma AcceptedExactly(handle: seq<byte>)
    ensures PartsOf(handle).Some? <==> exists p: Parts :: Packable(p) && handle == Encoded(TAG, List(p))
    ensures forall p: Parts :: Packable(p) && handle == Encoded(TAG, List(p)) ==> PartsOf(handle) == Some(p)
  {
    CodecCanonical(TAG, handle);
    var ms := DecodeAll(TAG, handle).0;
    forall p: Parts | Packable(p) && handle == Encoded(TAG, List(p)) ensures PartsOf(handle) == Some(p) {
      CodecRoundTrip(TAG, List(p));
    }
    if PartsOf(handle).Some? {
      var p := PartsOf(handle).value;
      assert ms == List(p);
      assert Packable(p) by {
        assert ms[0] in ms && ms[1] in ms && ms[2] in ms;
      }
    }
  }

  /** What `RegisterKey` returns parses back to what it packed when every part is at most 255 bytes;
      otherwise the sticky error has cut the handle at a record boundary and it is refused. */
  lemma PackedParsesBack(p: Parts)
    ensures PartsOf(Encoded(TAG, Accepted(List(p)))) == if Packable(p) then Some(p) else None
  {
    var ms := List(p);
    CodecRoundTrip(TAG, Accepted(ms));
    if Packable(p) {
      AllAccepted(p);
    } else {
      assert |Accepted(ms)| < 3 by {
        assert |Accepted(ms)| == 3 ==> p.priv in Accepted(ms) && p.pub in Accepted(ms) && p.seed in Accepted(ms);
      }
    }
  }

  lemma AllAccepted(p: Parts)
    requires Packable(p)
    ensures Accepted(List(p)) == List(p)
  {
    assert |Accepted(List(p))| == 3;
  }

  lemma EncodedParts(p: Parts)
    requires Packable(p)
    ensures Encoded(TAG, List(p)) == Record(TAG, p.priv) + (Record(TAG, p.pub) + Record(TAG, p.seed))
  {
    hide Record;
    EncodedCons(TAG, p.priv, [p.pub, p.seed]);
    EncodedCons(TAG, p.pub, [p.seed]);
    EncodedCons(TAG, p.seed, []);
    assert List(p) == [p.priv] + [p.pub, p.seed] && [p.pub, p.seed] == [p.pub] + [p.seed] && [p.seed] == [p.seed] + [];
  }

  lemma TagIsAscii()
    ensures TAG == Ascii("TPM")
  {}

  /** The bytes of a handle: three times "TPM", a length and a part. */
  lemma PackedLayout(p: Parts)
    requires |p.priv| <= 255 && |p.pub| <= 255 && |p.seed| <= 255
    ensures Encoded(TAG, Accepted(List(p)))
         == Ascii("TPM") + [|p.priv|] + p.priv + Ascii("TPM") + [|p.pub|] + p.pub + Ascii("TPM") + [|p.seed|] + p.seed
  {
    hide Encoded, Accepted, Ascii;
    AllAccepted(p);
    EncodedParts(p);
    TagIsAscii();
    hide TAG;
  }

  /** A packed handle is as long as its parts plus four bytes a record, which is what decides
      whether it fits the one-byte length of a U2F registration reply. */
  lemma PackedLength(p: Parts)
    requires Packable(p)
    ensures |Encoded(TAG, List(p))| == |p.priv| + |p.pub| + |p.seed| + 12
  {
    EncodedParts(p);
  }

  /** No handle shorter than the framing of three records is accepted, the empty one least of all. */
  lemma AcceptedIsLong(handle: seq<byte>)
    requires PartsOf(handle).Some?
    ensures |handle| >= 12
  {
    hide PartsOf;
    AcceptedExactly(handle);
    var p :| Packable(p) && handle == Encoded(TAG, List(p));
    PackedLength(p);
  }
}
