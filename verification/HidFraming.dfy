/**
 Outgoing CTAPHID frames of fidohid/fidohid.go: `writeRespose`, the two `Marshal` methods,
 and the device they are written to. Section 11.2.4 of CTAP 2.1 fixes the layouts.
 */
module HidFraming {
  import opened Bytes

  const REPORT_LEN: nat := 64
  const INIT_DATA: nat := REPORT_LEN - 7
  const CONT_DATA: nat := REPORT_LEN - 5

  /** The longest message whose continuation numbers stay below 0x80. */
  const MAX_MESSAGE: nat := INIT_DATA + 128 * CONT_DATA

  type Frame = f: seq<byte> | |f| == REPORT_LEN witness Zeros(REPORT_LEN)

  /** `cmd | 0x80` */
  function InitType(cmd: byte): byte {
    if cmd < 0x80 then cmd + 0x80 else cmd
  }

  datatype FrameInit = FrameInit(channel: u32, command: byte, data: seq<byte>, total: u16) {
    function Marshal(): Frame
      requires |data| <= INIT_DATA
    {
      U32(channel) + [command] + U16(total) + Pad(data, INIT_DATA)
    }
  }

  datatype FrameCont = FrameCont(channel: u32, seqNo: byte, data: seq<byte>) {
    function Marshal(): Frame
      requires |data| <= CONT_DATA
    {
      U32(channel) + [seqNo] + Pad(data, CONT_DATA)
    }
  }

  /** The payload of a reply: a non-zero status word is appended. */
  function Body(data: seq<byte>, status: u16): seq<byte> {
    if status > 0 then data + U16(status) else data
  }

  /** Continuation frames for `data`; `k` counts them, the wire carries it modulo 256. */
  function ContFrames(channel: u32, k: nat, data: seq<byte>): seq<Frame>
    decreases |data|
  {
    if data == [] then [] else
    var n := Min(|data|, CONT_DATA);
    [FrameCont(channel, k % 0x100, data[..n]).Marshal()] + ContFrames(channel, k + 1, data[n..])
  }

  function Frames(channel: u32, cmd: byte, data: seq<byte>): seq<Frame>
  {
    if data == [] then [] else
    var n := Min(|data|, INIT_DATA);
    [FrameInit(channel, InitType(cmd), data[..n], |data| % 0x1_0000).Marshal()] + ContFrames(channel, 0, data[n..])
  }

  /** What has crossed the link so far; `faulty(i)` says that the i-th write fails. */
  datatype Link = Link(faulty: nat -> bool, attempts: nat, sent: seq<Frame>)

  function Push(l: Link, frame: Frame): (Link, bool) {
    if l.faulty(l.attempts) then (l.(attempts := l.attempts + 1), false)
    else (l.(attempts := l.attempts + 1, sent := l.sent + [frame]), true)
  }

  /** Frames are written in order until one write fails. */
  function Send(l: Link, frames: seq<Frame>): (Link, bool)
    decreases |frames|
  {
    if frames == [] then (l, true) else
    var (l', ok) := Push(l, frames[0]);
    if ok then Send(l', frames[1..]) else (l', false)
  }

  lemma SendStep(l: Link, frame: Frame, rest: seq<Frame>)
    ensures var (l', ok) := Push(l, frame);
            Send(l, [frame] + rest) == if ok then Send(l', rest) else (l', false)
  {
    assert ([frame] + rest)[1..] == rest;
  }

  /** The uhid device. */
  class Device {
    const faulty: nat -> bool
    var attempts: nat
    var sent: seq<Frame>

    constructor (faulty: nat -> bool)
      ensures View() == Link(faulty, 0, [])
    {
      this.faulty := faulty;
      attempts, sent := 0, [];
    }

    ghost function View(): Link reads this {
      Link(faulty, attempts, sent)
    }

    method WriteEvent(frame: Frame) returns (ok: bool)
      modifies this
      ensures (View(), ok) == Push(old(View()), frame)
    {
      ok := !faulty(attempts);
      attempts := attempts + 1;
      if ok {
        sent := sent + [frame];
      }
    }
  }

  method WriteResponse(d: Device, channel: u32, cmd: byte, reply: seq<byte>, status: u16) returns (ok: bool)
    modifies d
    ensures (d.View(), ok) == Send(old(d.View()), Frames(channel, cmd, Body(reply, status)))
  {
    hide FrameCont.Marshal, FrameInit.Marshal;
    var data := reply;
    var initial := true;
    var pktSize := INIT_DATA;
    if status > 0 {
      data := data + U16(status);
    }
    ghost var all := Frames(channel, cmd, data);
    var total: u16 := |data| % 0x1_0000;
    var seqNo: byte := 0;
    ghost var k := 0;
    while |data| > 0
      invariant pktSize == if initial then INIT_DATA else CONT_DATA
      invariant initial ==> total == |data| % 0x1_0000
      invariant seqNo == k % 0x100 && (initial ==> k == 0)
      invariant Send(old(d.View()), all)
             == Send(d.View(), if initial then Frames(channel, cmd, data) else ContFrames(channel, k, data))
      decreases |data|
    {
      hide Send, Push;
      var sliceSize := pktSize;
      if |data| < sliceSize {
        sliceSize := |data|;
      }
      ghost var frames := if initial then Frames(channel, cmd, data) else ContFrames(channel, k, data);
      var pktData := data[..sliceSize];
      data := data[sliceSize..];
      if initial {
        initial := false;
        pktSize := CONT_DATA;
        var payload := FrameInit(channel, InitType(cmd), pktData, total).Marshal();
        assert frames == [payload] + ContFrames(channel, k, data);
        SendStep(d.View(), payload, ContFrames(channel, k, data));
        ok := d.WriteEvent(payload);
        if !ok {
          return;
        }
      } else {
        var payload := FrameCont(channel, seqNo, pktData).Marshal();
        assert frames == [payload] + ContFrames(channel, k + 1, data);
        SendStep(d.View(), payload, ContFrames(channel, k + 1, data));
        ok := d.WriteEvent(payload);
        if !ok {
          return;
        }
        seqNo, k := (seqNo + 1) % 0x100, k + 1;
      }
    }
    ok := true;
  }

  /** A CTAP2 reply is a status byte and a body, without a trailing status word. */
  method WriteCtap2Response(d: Device, channel: u32, status: byte, data: seq<byte>) returns (ok: bool)
    modifies d
    ensures (d.View(), ok) == Send(old(d.View()), Frames(channel, 0x10, [status] + data))
  {
    ok := WriteResponse(d, channel, 0x10, [status] + data, 0);
  }

  /** Either everything arrives, or a proper prefix does and the caller is told so. */
  lemma {:induction false} SendIsPrefix(l: Link, frames: seq<Frame>)
    ensures var (l', ok) := Send(l, frames);
            var n := |l'.sent| - |l.sent|;
            && 0 <= n <= |frames| && l'.sent == l.sent + frames[..n] && l'.faulty == l.faulty
            && (ok <==> n == |frames|)
            && (ok <==> forall i :: l.attempts <= i < l.attempts + |frames| ==> !l.faulty(i))
    decreases |frames|
  {
    if frames != [] {
      var (l1, ok1) := Push(l, frames[0]);
      if ok1 {
        SendIsPrefix(l1, frames[1..]);
        var n := |Send(l, frames).0.sent| - |l.sent|;
        assert frames[..n] == [frames[0]] + frames[1..][..n - 1];
      }
    }
  }

  /** How many continuations carry `n` bytes. */
  function ContCount(n: int): nat {
    if n <= 0 then 0 else (n + 58) / 59
  }

  lemma {:induction false} ContFrameCount(channel: u32, k: nat, data: seq<byte>)
    ensures |ContFrames(channel, k, data)| == ContCount(|data|)
    decreases |data|
  {
    if data != [] {
      ContFrameCount(channel, k + 1, data[Min(|data|, CONT_DATA)..]);
    }
  }

  lemma {:induction false} ContFrameAt(channel: u32, k: nat, data: seq<byte>, i: nat)
    requires i < |ContFrames(channel, k, data)|
    ensures ContFrames(channel, k, data)[i]
         == FrameCont(channel, (k + i) % 0x100, Slice(data, 59 * i, 59 * i + 59)).Marshal()
    decreases i
  {
    hide FrameCont.Marshal;
    if i > 0 {
      assert |data| > 59;
      ContFrameAt(channel, k + 1, data[59..], i - 1);
      SliceOfRest(data, 59, 59 * (i - 1), 59 * i);
    }
  }

  /** The data fields of frames whose header takes `offset` bytes, in order. */
  function Slots(frames: seq<Frame>, offset: nat): seq<seq<byte>>
    requires offset <= REPORT_LEN
  {
    if frames == [] then [] else [frames[0][offset..]] + Slots(frames[1..], offset)
  }

  lemma ContFields(f: FrameCont)
    requires |f.data| <= CONT_DATA
    ensures f.Marshal()[..4] == U32(f.channel) && f.Marshal()[4] == f.seqNo
        && f.Marshal()[5..] == Pad(f.data, CONT_DATA)
  {}

  lemma InitFields(f: FrameInit)
    requires |f.data| <= INIT_DATA
    ensures f.Marshal()[..4] == U32(f.channel) && f.Marshal()[4] == f.command
    ensures f.Marshal()[5..7] == U16(f.total) && f.Marshal()[7..] == Pad(f.data, INIT_DATA)
  {}

  lemma {:induction false} ContDataConcatenates(channel: u32, k: nat, data: seq<byte>)
    ensures 59 * ContCount(|data|) >= |data|
    ensures Flatten(Slots(ContFrames(channel, k, data), 5)) == Pad(data, 59 * ContCount(|data|))
    decreases |data|
  {
    if data != [] {
      hide FrameCont.Marshal, Slots, Flatten, Pad;
      var n := Min(|data|, CONT_DATA);
      var first, rest := data[..n], data[n..];
      var f := FrameCont(channel, k % 0x100, first);
      var tail := ContFrames(channel, k + 1, rest);
      ContDataConcatenates(channel, k + 1, rest);
      ContFields(f);
      SlotsCons(f.Marshal(), tail, 5);
      SplitPad(data, CONT_DATA, 59 * ContCount(|rest|));
      assert ContFrames(channel, k, data) == [f.Marshal()] + tail;
      assert ContCount(|data|) == 1 + ContCount(|rest|);
    }
  }

  /** Padding the first `m` bytes and the rest separately is padding the whole. */
  lemma SplitPad(data: seq<byte>, m: nat, w: nat)
    requires |data| <= m + w && (|data| <= m ==> w == 0)
    ensures Pad(data[..Min(|data|, m)], m) + Pad(data[Min(|data|, m)..], w) == Pad(data, m + w)
  {
    var n := Min(|data|, m);
    assert data == data[..n] + data[n..];
  }

  lemma SlotsCons(f: Frame, tail: seq<Frame>, offset: nat)
    requires offset <= REPORT_LEN
    ensures Flatten(Slots([f] + tail, offset)) == f[offset..] + Flatten(Slots(tail, offset))
  {
    assert ([f] + tail)[1..] == tail;
    var parts := [f[offset..]] + Slots(tail, offset);
    assert parts[1..] == Slots(tail, offset);
  }

  lemma FrameInitFields(channel: u32, cmd: byte, data: seq<byte>)
    requires data != []
    ensures var f := Frames(channel, cmd, data)[0];
            && f[..4] == U32(channel) && f[4] == InitType(cmd) && f[5..7] == U16(|data| % 0x1_0000)
            && f[7..] == Pad(data[..Min(|data|, INIT_DATA)], INIT_DATA)
  {
    InitFields(FrameInit(channel, InitType(cmd), data[..Min(|data|, INIT_DATA)], |data| % 0x1_0000));
  }

  lemma LaterFrames(channel: u32, cmd: byte, data: seq<byte>)
    requires data != []
    ensures |Frames(channel, cmd, data)| > 0
    ensures Frames(channel, cmd, data)[1..] == ContFrames(channel, 0, data[Min(|data|, INIT_DATA)..])
  {
    hide FrameCont.Marshal, FrameInit.Marshal;
  }

  /** The j-th continuation frame of a message, in closed form. */
  lemma FrameAt(channel: u32, cmd: byte, data: seq<byte>, j: nat)
    requires j + 1 < |Frames(channel, cmd, data)|
    ensures Frames(channel, cmd, data)[j + 1]
         == FrameCont(channel, j % 0x100, Slice(data, 57 + 59 * j, 57 + (59 * j + 59))).Marshal()
  {
    hide Frames, ContFrames, FrameCont.Marshal, Slice;
    FrameCount(channel, cmd, data);
    assert |data| > 57;
    LaterFrames(channel, cmd, data);
    hide ContCount;
    var fs, rest := Frames(channel, cmd, data), data[57..];
    assert fs[1..] == ContFrames(channel, 0, rest) && fs[1..][j] == fs[j + 1];
    ContFrameAt(channel, 0, rest, j);
    SliceOfRest(data, 57, 59 * j, 59 * j + 59);
  }

  lemma FrameContFields(channel: u32, cmd: byte, data: seq<byte>, j: nat)
    requires j + 1 < |Frames(channel, cmd, data)|
    ensures var f := Frames(channel, cmd, data)[j + 1];
            && f[..4] == U32(channel) && f[4] == j % 0x100
            && f[5..] == Pad(Slice(data, 57 + 59 * j, 57 + (59 * j + 59)), CONT_DATA)
  {
    FrameAt(channel, cmd, data, j);
    hide Frames, FrameCont.Marshal, Pad, U32;
    ContFields(FrameCont(channel, j % 0x100, Slice(data, 57 + 59 * j, 57 + (59 * j + 59))));
  }

  lemma FrameCount(channel: u32, cmd: byte, data: seq<byte>)
    ensures |Frames(channel, cmd, data)| == if data == [] then 0 else 1 + ContCount(|data| - INIT_DATA)
  {
    if data != [] {
      ContFrameCount(channel, 0, data[Min(|data|, INIT_DATA)..]);
    }
  }

  /** The data fields of all frames, put together, are the payload followed by zeros. */
  lemma FrameDataConcatenates(channel: u32, cmd: byte, data: seq<byte>)
    requires data != []
    ensures var fs := Frames(channel, cmd, data);
            && 57 + 59 * |fs[1..]| >= |data|
            && fs[0][7..] + Flatten(Slots(fs[1..], 5)) == Pad(data, 57 + 59 * |fs[1..]|)
  {
    hide FrameCont.Marshal, FrameInit.Marshal, Slots, Flatten, Pad;
    var rest := data[Min(|data|, INIT_DATA)..];
    var fs := Frames(channel, cmd, data);
    FrameInitFields(channel, cmd, data);
    ContFrameCount(channel, 0, rest);
    ContDataConcatenates(channel, 0, rest);
    LaterFrames(channel, cmd, data);
    SplitPad(data, INIT_DATA, 59 * |fs[1..]|);
  }

  /** The continuation numbers on the wire are 0, 1, 2, ... without ever reaching the bit that
      marks an initial frame exactly for payloads of at most MAX_MESSAGE bytes. */
  lemma SequenceNumbers(channel: u32, cmd: byte, data: seq<byte>)
    ensures var fs := Frames(channel, cmd, data);
            |data| <= MAX_MESSAGE <==> forall i :: 1 <= i < |fs| ==> fs[i][4] == i - 1 && fs[i][4] < 0x80
  {
    hide Frames, Pad, Slice, U32;
    var fs := Frames(channel, cmd, data);
    FrameCount(channel, cmd, data);
    forall i | 1 <= i < |fs| ensures fs[i][4] == (i - 1) % 0x100 {
      FrameContFields(channel, cmd, data, i - 1);
    }
    if |data| > MAX_MESSAGE {
      assert fs[129][4] == 0x80;
    }
  }
}
