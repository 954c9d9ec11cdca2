/**
 The length-prefixed record codec of internal/lencode/lencode.go: a stateful encoder and a
 stateful decoder, each stopping for good at its first error.
 */
module Lencode {
  import opened Bytes

  datatype Error = TooLong | WriteFailed | Mismatch | Eof | UnexpectedEof | BufferSize

  datatype Outcome<+T> = Done(value: T) | Failed(error: Error) | Panic

  // ----- records -----

  predicate Short(m: seq<byte>) {
    |m| <= 0xff
  }

  function Record(sep: seq<byte>, m: seq<byte>): seq<byte>
    requires Short(m)
  {
    sep + [|m|] + m
  }

  function Encoded(sep: seq<byte>, ms: seq<seq<byte>>): seq<byte>
    requires forall m :: m in ms ==> Short(m)
    decreases |ms|
  {
    if ms == [] then [] else Encoded(sep, ms[..|ms| - 1]) + Record(sep, ms[|ms| - 1])
  }

  // ----- encoder -----

  /** A writer that takes `capacity` bytes before it starts to fail; None never fails. */
  class Writer {
    const capacity: Option<nat>
    var written: seq<byte>

    constructor (capacity: Option<nat>)
      ensures this.capacity == capacity && written == []
    {
      this.capacity := capacity;
      written := [];
    }

    method Write(b: seq<byte>) returns (ok: bool)
      modifies this
      ensures written == Fit(capacity, old(written), b)
      ensures ok <==> written == old(written) + b
    {
      if capacity.None? || |written| + |b| <= capacity.value {
        written, ok := written + b, true;
      } else if |written| < capacity.value {
        written, ok := written + b[..capacity.value - |written|], false;
      } else {
        ok := b == [];
        assert b == [] ==> written + b == written;
      }
    }
  }

  /** `have` extended by as much of `b` as there is room for. */
  function Fit(capacity: Option<nat>, have: seq<byte>, b: seq<byte>): seq<byte> {
    if capacity.None? || |have| + |b| <= capacity.value then have + b
    else if |have| < capacity.value then have + b[..capacity.value - |have|]
    else have
  }

  datatype EncState = EncState(written: seq<byte>, err: Option<Error>)

  /** `Encoder.write` */
  function Put(capacity: Option<nat>, s: EncState, b: seq<byte>): EncState {
    if s.err.Some? then s else
    var w := Fit(capacity, s.written, b);
    EncState(w, if w == s.written + b then None else Some(WriteFailed))
  }

  /** `Encoder.Encode` */
  function EncodeStep(capacity: Option<nat>, sep: Option<seq<byte>>, s: EncState, m: seq<byte>): EncState {
    if s.err.Some? then s
    else if !Short(m) then s.(err := Some(TooLong))
    else
      var s1 := if sep.Some? then Put(capacity, s, sep.value) else s;
      Put(capacity, Put(capacity, s1, [|m|]), m)
  }

  class Encoder {
    const w: Writer
    const separator: Option<seq<byte>>
    var err: Option<Error>

    constructor (w: Writer, separator: Option<seq<byte>>)
      ensures this.w == w && this.separator == separator && err == None
    {
      this.w, this.separator, err := w, separator, None;
    }

    ghost function View(): EncState reads this, w {
      EncState(w.written, err)
    }

    method Encode(msg: seq<byte>) returns (e: Option<Error>)
      modifies this, w
      ensures View() == EncodeStep(w.capacity, separator, old(View()), msg)
      ensures e == err
    {
      if err.Some? {
        return err;
      }
      if |msg| > 0xff {
        err := Some(TooLong);
        return err;
      }
      if separator.Some? {
        var e1 := Write(separator.value);
      }
      var e2 := Write([|msg|]);
      var e3 := Write(msg);
      e := err;
    }

    method Write(b: seq<byte>) returns (e: Option<Error>)
      modifies this, w
      ensures View() == Put(w.capacity, old(View()), b)
      ensures e == err
    {
      if err.Some? {
        return err;
      }
      var ok := w.Write(b);
      if !ok {
        err := Some(WriteFailed);
      }
      e := err;
    }
  }

  function EncodeRun(capacity: Option<nat>, sep: Option<seq<byte>>, ms: seq<seq<byte>>): EncState
    decreases |ms|
  {
    if ms == [] then EncState([], None)
    else EncodeStep(capacity, sep, EncodeRun(capacity, sep, ms[..|ms| - 1]), ms[|ms| - 1])
  }

  lemma EncodeRunSnoc(capacity: Option<nat>, sep: Option<seq<byte>>, ms: seq<seq<byte>>, m: seq<byte>)
    ensures EncodeRun(capacity, sep, ms + [m]) == EncodeStep(capacity, sep, EncodeRun(capacity, sep, ms), m)
  {
    assert (ms + [m])[..|ms|] == ms;
  }

  /** The messages before the first one that is too long. */
  function Accepted(ms: seq<seq<byte>>): (r: seq<seq<byte>>)
    ensures forall m :: m in r ==> Short(m)
    ensures r <= ms && (|r| < |ms| ==> !Short(ms[|r|]))
    decreases |ms|
  {
    if ms == [] then [] else
    var r := Accepted(ms[..|ms| - 1]);
    if |r| == |ms| - 1 && Short(ms[|ms| - 1]) then ms else r
  }

  function Separator(sep: Option<seq<byte>>): seq<byte> {
    if sep.Some? then sep.value else []
  }

  lemma FitTwice(capacity: Option<nat>, have: seq<byte>, a: seq<byte>, b: seq<byte>)
    ensures Fit(capacity, Fit(capacity, have, a), b) == Fit(capacity, have, a + b)
    ensures Fit(capacity, have, a) != have + a ==>
              Fit(capacity, have, a + b) == Fit(capacity, have, a) && Fit(capacity, have, a + b) != have + (a + b)
    ensures Fit(capacity, have, a) == have + a ==>
              (Fit(capacity, have, a + b) == have + (a + b) <==> Fit(capacity, have + a, b) == have + a + b)
  {
    assert have + (a + b) == have + a + b;
    if Fit(capacity, have, a) != have + a {
      var room := if |have| < capacity.value then capacity.value - |have| else 0;
      assert (a + b)[..room] == a[..room];
      assert |Fit(capacity, have, a + b)| < |have + (a + b)|;
    } else if capacity.Some? && |have| + |a + b| > capacity.value && |have| < capacity.value {
      assert (a + b)[..capacity.value - |have|] == a + b[..capacity.value - |have| - |a|];
      assert |Fit(capacity, have, a + b)| < |have + (a + b)|;
    }
  }

  /** Two writes in a row are one write of both. */
  lemma PutTwice(capacity: Option<nat>, s: EncState, a: seq<byte>, b: seq<byte>)
    ensures Put(capacity, Put(capacity, s, a), b) == Put(capacity, s, a + b)
  {
    FitTwice(capacity, s.written, a, b);
    assert s.written + (a + b) == s.written + a + b;
  }

  lemma EncodeIsOneWrite(capacity: Option<nat>, sep: Option<seq<byte>>, s: EncState, m: seq<byte>)
    requires Short(m)
    ensures EncodeStep(capacity, sep, s, m) == Put(capacity, s, Record(Separator(sep), m))
  {
    hide Put;
    var len: seq<byte> := [|m|];
    if s.err.Some? {
      StickyPut(capacity, s, Record(Separator(sep), m));
    } else if sep.Some? {
      PutTwice(capacity, s, sep.value, len);
      PutTwice(capacity, s, sep.value + len, m);
    } else {
      PutTwice(capacity, s, len, m);
      assert Record([], m) == len + m;
    }
  }

  lemma StickyPut(capacity: Option<nat>, s: EncState, b: seq<byte>)
    ensures s.err.Some? ==> Put(capacity, s, b) == s
  {}

  /** A write after others that were only bounded by the capacity. */
  lemma PutAfter(capacity: Option<nat>, s: EncState, before: seq<byte>, b: seq<byte>)
    requires s.written == Fit(capacity, [], before)
    requires s.err == if Fit(capacity, [], before) != before then Some(WriteFailed) else None
    ensures var w := Fit(capacity, [], before + b);
            Put(capacity, s, b) == EncState(w, if w != before + b then Some(WriteFailed) else None)
  {
    FitTwice(capacity, [], before, b);
    assert [] + before == before && [] + (before + b) == before + b;
  }

  /** The writer has taken what it has room for, and the error says what went wrong first. */
  predicate Leaves(capacity: Option<nat>, all: seq<byte>, complete: bool, r: EncState) {
    && r.written == Fit(capacity, [], all)
    && r.err == if Fit(capacity, [], all) != all then Some(WriteFailed) else if !complete then Some(TooLong) else None
  }

  lemma AcceptedStep(capacity: Option<nat>, sep: Option<seq<byte>>, all: seq<byte>, s: EncState, m: seq<byte>)
    requires Leaves(capacity, all, true, s) && Short(m)
    ensures Leaves(capacity, all + Record(Separator(sep), m), true, EncodeStep(capacity, sep, s, m))
  {
    hide Fit, Put, Record, EncodeStep, Separator;
    EncodeIsOneWrite(capacity, sep, s, m);
    PutAfter(capacity, s, all, Record(Separator(sep), m));
  }

  lemma RefusedStep(capacity: Option<nat>, sep: Option<seq<byte>>, all: seq<byte>, complete: bool, s: EncState,
      m: seq<byte>)
    requires Leaves(capacity, all, complete, s) && !(complete && Short(m))
    ensures Leaves(capacity, all, false, EncodeStep(capacity, sep, s, m))
  {
    hide Fit, Put;
  }

  lemma OneMore(prefix: seq<byte>, ms: seq<seq<byte>>)
    requires ms != []
    ensures var n := |ms| - 1;
            var a := Accepted(ms[..n]);
            if |a| == n && Short(ms[n]) then
              |Accepted(ms)| == |ms| && Encoded(prefix, Accepted(ms)) == Encoded(prefix, a) + Record(prefix, ms[n])
            else Accepted(ms) == a && |a| < |ms|
  {
    hide Record, Short;
    var n := |ms| - 1;
    assert |Accepted(ms[..n])| == n ==> Accepted(ms[..n]) == ms[..n];
  }

  lemma NothingIsLeft(capacity: Option<nat>, sep: Option<seq<byte>>, prefix: seq<byte>)
    ensures Leaves(capacity, Encoded(prefix, Accepted([])), |Accepted([])| == 0, EncodeRun(capacity, sep, []))
  {}

  lemma {:induction false} RunLeaves(capacity: Option<nat>, sep: Option<seq<byte>>, ms: seq<seq<byte>>)
    ensures var all := Encoded(Separator(sep), Accepted(ms));
            Leaves(capacity, all, |Accepted(ms)| == |ms|, EncodeRun(capacity, sep, ms))
    decreases |ms|
  {
    hide Leaves, Record, EncodeStep, Separator, Short, Accepted, Encoded;
    if ms == [] {
      NothingIsLeft(capacity, sep, Separator(sep));
    } else {
      var n := |ms| - 1;
      var all, before := Encoded(Separator(sep), Accepted(ms[..n])), EncodeRun(capacity, sep, ms[..n]);
      assert EncodeRun(capacity, sep, ms) == EncodeStep(capacity, sep, before, ms[n]);
      hide EncodeRun;
      RunLeaves(capacity, sep, ms[..n]);
      OneMore(Separator(sep), ms);
      if |Accepted(ms[..n])| == n && Short(ms[n]) {
        AcceptedStep(capacity, sep, all, before, ms[n]);
      } else {
        RefusedStep(capacity, sep, all, |Accepted(ms[..n])| == n, before, ms[n]);
      }
    }
  }

  /** What a whole run of `Encode` calls leaves: the records of the messages before the first one
      that is too long, cut off where the writer started to fail, and the first error for good. */
  lemma EncoderOverRun(capacity: Option<nat>, sep: Option<seq<byte>>, ms: seq<seq<byte>>)
    ensures var all := Encoded(if sep.Some? then sep.value else [], Accepted(ms));
            var r := EncodeRun(capacity, sep, ms);
            && r.written == Fit(capacity, [], all)
            && r.err == (if Fit(capacity, [], all) != all then Some(WriteFailed)
                         else if |Accepted(ms)| < |ms| then Some(TooLong) else None)
  {
    hide Accepted, EncodeRun, Encoded, Fit;
    RunLeaves(capacity, sep, ms);
  }

  // ----- decoder -----

  datatype ReadResult = Full | AtEnd | Partial

  /** `io.ReadFull` over bytes in memory. */
  class Reader {
    var rest: seq<byte>

    constructor (data: seq<byte>)
      ensures rest == data
    {
      rest := data;
    }

    method ReadFull(buf: array<byte>, n: nat) returns (r: ReadResult)
      requires n <= buf.Length
      modifies this, buf
      ensures r == if n <= |old(rest)| then Full else if old(rest) == [] then AtEnd else Partial
      ensures r.Full? ==> buf[..n] == old(rest)[..n] && buf[n..] == old(buf[n..]) && rest == old(rest)[n..]
      ensures !r.Full? ==> rest == []
    {
      var k := Min(n, |rest|);
      forall i | 0 <= i < k {
        buf[i] := rest[i];
      }
      r := if n <= |rest| then Full else if |rest| == 0 then AtEnd else Partial;
      rest := rest[k..];
    }
  }

  /** Unread bytes, the length of a record whose prefix has been read, and the first error. */
  datatype DecState = DecState(rest: seq<byte>, pending: Option<nat>, err: Option<Error>)

  /** `Decoder.readPrefix` */
  function PrefixStep(sep: seq<byte>, s: DecState): DecState {
    if s.err.Some? || s.pending.Some? then s
    else if |s.rest| <= |sep| then DecState([], None, Some(if s.rest == [] then Eof else UnexpectedEof))
    else
      var after := s.rest[|sep| + 1..];
      if s.rest[..|sep|] != sep then DecState(after, None, Some(Mismatch))
      else DecState(after, Some(s.rest[|sep|]), None)
  }

  /** `Decoder.DecodeInto` on a slice of `len` bytes that could grow to `cap`. */
  function IntoStep(sep: seq<byte>, s: DecState, len: nat, cap: nat): (DecState, Outcome<seq<byte>>) {
    var p := PrefixStep(sep, s);
    if p.err.Some? then (p, Failed(p.err.value))
    else if p.pending.value < len then (p.(err := Some(BufferSize)), Failed(BufferSize))
    else if p.pending.value > cap then (p, Panic)
    else if p.pending.value > |p.rest| then (DecState([], p.pending, Some(UnexpectedEof)), Failed(UnexpectedEof))
    else (DecState(p.rest[p.pending.value..], None, None), Done(p.rest[..p.pending.value]))
  }

  /** `Decoder.Decode` */
  function DecodeStep(sep: seq<byte>, s: DecState): (DecState, Outcome<seq<byte>>) {
    var p := PrefixStep(sep, s);
    if p.err.Some? then (p, Failed(p.err.value)) else IntoStep(sep, p, p.pending.value, p.pending.value)
  }

  class Decoder {
    const r: Reader
    const separator: seq<byte>
    const prefixBuf: array<byte>
    var err: Option<Error>
    var pendingPrefix: bool
    var pendingLen: nat

    constructor (r: Reader, separator: seq<byte>)
      ensures Valid() && fresh(prefixBuf) && this.r == r && this.separator == separator
      ensures View() == DecState(r.rest, None, None)
    {
      this.r, this.separator, prefixBuf := r, separator, new byte[|separator| + 1](_ => 0);
      err, pendingPrefix, pendingLen := None, false, 0;
    }

    ghost predicate Valid() reads this {
      prefixBuf.Length == |separator| + 1
    }

    ghost function View(): DecState reads this, r {
      DecState(r.rest, if pendingPrefix then Some(pendingLen) else None, err)
    }

    method ReadPrefix() returns (e: Option<Error>)
      requires Valid()
      modifies this, r, prefixBuf
      ensures Valid() && View() == PrefixStep(separator, old(View())) && e == err
    {
      if err.Some? {
        return err;
      }
      if pendingPrefix {
        return None;
      }
      var n := |separator|;
      ghost var was := r.rest;
      var got := r.ReadFull(prefixBuf, n + 1);
      if got != Full {
        err := Some(if got == AtEnd then Eof else UnexpectedEof);
        return err;
      }
      assert prefixBuf[..n] == was[..n] by {
        assert prefixBuf[..n] == prefixBuf[..n + 1][..n];
      }
      assert prefixBuf[n] == prefixBuf[..n + 1][n];
      if n > 0 && prefixBuf[..n] != separator {
        err := Some(Mismatch);
        return err;
      }
      pendingPrefix, pendingLen := true, prefixBuf[n];
      e := err;
    }

    /** `b[:len]` is the caller's slice and `b.Length` its capacity. */
    method DecodeInto(b: array<byte>, len: nat) returns (o: Outcome<()>)
      requires Valid() && b != prefixBuf && len <= b.Length
      modifies this, r, prefixBuf, b
      ensures Valid()
      ensures var (s, out) := IntoStep(separator, old(View()), len, b.Length);
              && View() == s
              && o == (match out case Done(_) => Done(()) case Failed(x) => Failed(x) case Panic => Panic)
              && (out.Done? ==> b[..|out.value|] == out.value && b[|out.value|..] == old(b[..])[|out.value|..])
    {
      var e := ReadPrefix();
      if e.Some? {
        return Failed(e.value);
      }
      if pendingLen < len {
        err := Some(BufferSize);
        return Failed(BufferSize);
      }
      if pendingLen > b.Length {
        return Panic;
      }
      var got := r.ReadFull(b, pendingLen);
      if got != Full {
        err := Some(UnexpectedEof);
        return Failed(UnexpectedEof);
      }
      pendingPrefix, pendingLen := false, 0;
      o := Done(());
    }

    method Decode() returns (o: Outcome<seq<byte>>)
      requires Valid()
      modifies this, r, prefixBuf
      ensures Valid() && (View(), o) == DecodeStep(separator, old(View()))
    {
      var e := ReadPrefix();
      if e.Some? {
        return Failed(e.value);
      }
      var buf := new byte[pendingLen](_ => 0);
      ghost var len := pendingLen;
      var done := DecodeInto(buf, pendingLen);
      assert buf[..len] == buf[..];
      match done
      case Failed(x) => return Failed(x);
      case Panic => return Panic;
      case Done(_) =>
        o := Done(buf[..]);
    }

    method NextLen() returns (o: Outcome<nat>)
      requires Valid()
      modifies this, r, prefixBuf
      ensures Valid() && View() == PrefixStep(separator, old(View()))
      ensures o == if err.Some? then Failed(err.value) else Done(View().pending.value)
    {
      if err.Some? {
        return Failed(err.value);
      }
      if !pendingPrefix {
        var e := ReadPrefix();
        if e.Some? {
          return Failed(e.value);
        }
      }
      o := Done(pendingLen);
    }
  }

  function Start(data: seq<byte>): DecState {
    DecState(data, None, None)
  }

  /** The messages and the error of calling `Decode` until it fails. */
  function DecodeAll(sep: seq<byte>, data: seq<byte>): (r: (seq<seq<byte>>, Error))
    ensures forall m :: m in r.0 ==> Short(m)
    decreases |data|
  {
    var (s, o) := DecodeStep(sep, Start(data));
    if o.Done? then
      var (ms, e) := DecodeAll(sep, s.rest);
      ([o.value] + ms, e)
    else ([], if o.Failed? then o.error else BufferSize)
  }

  /** One record in front of anything is read as it is, and the rest is left. */
  lemma DecodeRecord(sep: seq<byte>, m: seq<byte>, tail: seq<byte>)
    requires Short(m)
    ensures DecodeStep(sep, Start(Record(sep, m) + tail)) == (Start(tail), Done(m))
  {
    var data := Record(sep, m) + tail;
    assert data[..|sep|] == sep && data[|sep|] == |m|;
    assert data[|sep| + 1..] == m + tail;
    assert (m + tail)[..|m|] == m && (m + tail)[|m|..] == tail;
  }

  /** A successful `Decode` has read exactly one record. */
  lemma DecodeReadsRecord(sep: seq<byte>, data: seq<byte>)
    requires DecodeStep(sep, Start(data)).1.Done?
    ensures var (s, o) := DecodeStep(sep, Start(data));
            s == Start(s.rest) && Short(o.value) && data == Record(sep, o.value) + s.rest
  {
    var n := |sep|;
    var p := PrefixStep(sep, Start(data));
    assert data == data[..n] + [data[n]] + data[n + 1..];
    assert p.rest == p.rest[..p.pending.value] + p.rest[p.pending.value..];
  }

  lemma {:induction false} EncodedCons(sep: seq<byte>, m: seq<byte>, ms: seq<seq<byte>>)
    requires Short(m) && forall x :: x in ms ==> Short(x)
    ensures Encoded(sep, [m] + ms) == Record(sep, m) + Encoded(sep, ms)
    decreases |ms|
  {
    if ms == [] {
      assert [m] + ms == [m] && [m][..0] == [];
      assert Encoded(sep, [m]) == Record(sep, m);
    } else {
      hide Record;
      var n := |ms| - 1;
      EncodedCons(sep, m, ms[..n]);
      assert ([m] + ms)[..n + 1] == [m] + ms[..n] && ([m] + ms)[n + 1] == ms[n];
      ConcatAssociates(Record(sep, m), Encoded(sep, ms[..n]), Record(sep, ms[n]));
    }
  }

  /** Round trip: an encoder's stream decodes to its messages and then a clean end of file. */
  lemma {:induction false} CodecRoundTrip(sep: seq<byte>, ms: seq<seq<byte>>)
    requires forall m :: m in ms ==> Short(m)
    ensures DecodeAll(sep, Encoded(sep, ms)).0 == ms && DecodeAll(sep, Encoded(sep, ms)).1 == Eof
    decreases |ms|
  {
    if ms != [] {
      var m, rest := ms[0], ms[1..];
      assert ms == [m] + rest;
      EncodedCons(sep, m, rest);
      DecodeRecord(sep, m, Encoded(sep, rest));
      CodecRoundTrip(sep, rest);
    }
  }

  /** Canonicity: decoding until the first error ends cleanly exactly on encoder streams; on any
      other stream it ends in a separator mismatch or an unexpected end of file, after the records
      that were complete. */
  lemma {:induction false} CodecCanonical(sep: seq<byte>, data: seq<byte>)
    ensures var (ms, e) := DecodeAll(sep, data);
            && (e == Eof <==> data == Encoded(sep, ms))
            && Encoded(sep, ms) <= data
            && e in {Eof, Mismatch, UnexpectedEof}
            && (e == Mismatch ==> sep != [])
    decreases |data|
  {
    var (s, o) := DecodeStep(sep, Start(data));
    if o.Done? {
      DecodeReadsRecord(sep, data);
      CodecCanonical(sep, s.rest);
      var ms := DecodeAll(sep, s.rest).0;
      EncodedCons(sep, o.value, ms);
      var r := Record(sep, o.value);
      assert data[..|r|] == r && data[|r|..] == s.rest;
      assert (r + Encoded(sep, ms))[|r|..] == Encoded(sep, ms);
    }
  }

  /** Different message lists have different streams. */
  lemma EncodedIsInjective(sep: seq<byte>, ms: seq<seq<byte>>, ns: seq<seq<byte>>)
    requires forall m :: m in ms ==> Short(m)
    requires forall n :: n in ns ==> Short(n)
    requires Encoded(sep, ms) == Encoded(sep, ns)
    ensures ms == ns
  {
    CodecRoundTrip(sep, ms);
    CodecRoundTrip(sep, ns);
  }

  /** An error is final: every later call returns it and reads nothing. */
  lemma ErrorsAreFinal(sep: seq<byte>, s: DecState, len: nat, cap: nat)
    requires s.err.Some?
    ensures PrefixStep(sep, s) == s
    ensures DecodeStep(sep, s) == (s, Failed(s.err.value)) && IntoStep(sep, s, len, cap) == (s, Failed(s.err.value))
  {}

  /** `NextLen` neither loses nor reads any of the message: what follows decodes as if it had not
      been called, and the length it reports is that of the message `Decode` then returns. */
  lemma NextLenIsTransparent(sep: seq<byte>, s: DecState)
    ensures var p := PrefixStep(sep, s);
            && PrefixStep(sep, p) == p
            && DecodeStep(sep, p) == DecodeStep(sep, s)
            && (DecodeStep(sep, s).1.Done? ==> p.err == None && p.pending == Some(|DecodeStep(sep, s).1.value|))
  {}

  /** How the stream after the complete records ends decoding: there is nothing left; or enough for a
      separator and a length, but another separator; or a record that is cut short. */
  lemma {:induction false} CodecEndsExactly(sep: seq<byte>, data: seq<byte>)
    ensures var (ms, e) := DecodeAll(sep, data);
            && Encoded(sep, ms) <= data
            && var rest := data[|Encoded(sep, ms)|..];
               e == if rest == [] then Eof
                    else if |rest| > |sep| && rest[..|sep|] != sep then Mismatch else UnexpectedEof
    decreases |data|
  {
    CodecCanonical(sep, data);
    var (s, o) := DecodeStep(sep, Start(data));
    if o.Done? {
      DecodeReadsRecord(sep, data);
      CodecEndsExactly(sep, s.rest);
      var ms := DecodeAll(sep, s.rest).0;
      EncodedCons(sep, o.value, ms);
      var r := Record(sep, o.value);
      assert data[|r|..] == s.rest;
      assert data[|r + Encoded(sep, ms)|..] == s.rest[|Encoded(sep, ms)|..];
    } else {
      assert data[0..] == data;
    }
  }

  /** `DecodeInto` wants a slice no longer than the message whose capacity holds it. A longer slice
      is refused with an error and a smaller capacity panics, so a slice made with exactly `n` bytes
      works for a message of `n` bytes and no other. */
  lemma DecodeIntoExactly(sep: seq<byte>, s: DecState, len: nat, cap: nat)
    requires len <= cap && DecodeStep(sep, s).1.Done?
    ensures var m := DecodeStep(sep, s).1.value;
            && (IntoStep(sep, s, len, cap).1.Done? <==> len <= |m| <= cap)
            && (len <= |m| <= cap ==> IntoStep(sep, s, len, cap) == DecodeStep(sep, s))
            && (len > |m| ==> IntoStep(sep, s, len, cap).1 == Failed(BufferSize))
            && (cap < |m| ==> IntoStep(sep, s, len, cap).1 == Panic)
            && (IntoStep(sep, s, len, len).1.Done? <==> len == |m|)
  {}

  /** The documented use, a slice "large enough" for the message, can therefore fail. */
  lemma LargeEnoughIsRefused()
    ensures DecodeStep([], Start([1, 7])).1 == Done([7])
    ensures IntoStep([], Start([1, 7]), 2, 2).1 == Failed(BufferSize)
  {
    assert [1, 7] == Record([], [7]) + [];
    DecodeRecord([], [7], []);
  }
}
