/**
  The transmitter's video endpoint (`video_stream`): each captured RGB565
  frame is written to the stream socket as `FR`, its length as two big-endian
  bytes, then the frame bytes.
 */
module VideoStream {
  import opened Wrappers
  import opened Bytes

  /** `n.to_bytes(2, 'big')`; `None` where Python raises OverflowError. */
  function U16Be(n: nat): (r: Option<seq<byte>>)
    ensures r.None? <==> n >= 0x1_0000
    ensures r.Some? ==> |r.value| == 2 && r.value[0] as int * 256 + r.value[1] as int == n
  {
    if n >= 0x1_0000 then None
    else
      var hi, lo := n / 256, n % 256;
      assert hi * 256 + lo == n && hi < 256;
      Some([ByteOf(hi), ByteOf(lo)])
  }

  /** The two bytes written for `256 * hi + lo` are `hi` and `lo`. */
  lemma U16BeDigits(hi: byte, lo: byte)
    ensures U16Be(hi as int * 256 + lo as int) == Some([hi, lo])
  {
    var r := U16Be(hi as int * 256 + lo as int).value;
    BaseDigitsUnique(r[0] as int, r[1] as int, hi as int, lo as int);
    ByteInjective(r[0], hi);
    ByteInjective(r[1], lo);
    assert r == [hi, lo];
  }

  /** Two base-256 digits are determined by the number they write. */
  lemma BaseDigitsUnique(a: int, b: int, c: int, d: int)
    requires 0 <= a < 256 && 0 <= b < 256 && 0 <= c < 256 && 0 <= d < 256
    requires a * 256 + b == c * 256 + d
    ensures a == c && b == d
  {
  }

  /** The message for one frame: marker, length, payload; `None` when the length does not fit in two bytes. */
  function EncodeMessage(frame: seq<byte>): (m: Option<seq<byte>>)
    ensures m.None? <==> |frame| >= 0x1_0000
    ensures m.Some? ==> |m.value| == |frame| + 4 && m.value[..2] == FrameMarker && m.value[4..] == frame
    ensures m.Some? ==> m.value[2] as int * 256 + m.value[3] as int == |frame|
  {
    match U16Be(|frame|)
    case None => None
    case Some(size) => Some(FrameMarker + size + frame)
  }

  /**
    The bytes written for a run of captured frames: their messages in order,
    ending with the first frame whose length cannot be encoded.
   */
  function Wire(shots: seq<seq<byte>>): seq<byte>
  {
    if shots == [] then []
    else
      match EncodeMessage(shots[0])
      case None => []
      case Some(m) => m + Wire(shots[1..])
  }

  /** The bytes of a message. */
  function MessageBytes(frame: seq<byte>): seq<byte>
  {
    match EncodeMessage(frame)
    case None => []
    case Some(m) => m
  }

  /** Sending one more frame after encodable ones appends its message. */
  lemma {:induction false} WireSnoc(shots: seq<seq<byte>>, shot: seq<byte>)
    requires forall i :: 0 <= i < |shots| ==> |shots[i]| < 0x1_0000
    ensures Wire(shots + [shot]) == Wire(shots) + MessageBytes(shot)
    decreases |shots|
  {
    if shots == [] {
      assert [] + [shot] == [shot];
      assert [shot][1..] == [];
    } else {
      assert (shots + [shot])[1..] == shots[1..] + [shot];
      WireSnoc(shots[1..], shot);
    }
  }

  /** The prefix of `i + 1` shots, all before `i` encodable, extends the prefix of `i` by message `i`. */
  lemma WireStep(shots: seq<seq<byte>>, i: nat)
    requires i < |shots| && forall j :: 0 <= j < i ==> |shots[j]| < 0x1_0000
    ensures Wire(shots[..i + 1]) == Wire(shots[..i]) + MessageBytes(shots[i])
  {
    assert shots[..i + 1] == shots[..i] + [shots[i]];
    WireSnoc(shots[..i], shots[i]);
  }

  /** A run whose first shot is too long to encode writes nothing. */
  lemma WireStopsAtOverflow(shots: seq<seq<byte>>)
    requires shots != [] && |shots[0]| >= 0x1_0000
    ensures Wire(shots) == []
  {
  }

  /** Appending to the written bytes in two steps or one gives the same stream. */
  lemma AppendAssoc(a: seq<byte>, b: seq<byte>, c: seq<byte>)
    ensures (a + b) + c == a + (b + c)
  {
  }

  /** The frames' lengths plus four bytes each. */
  function TotalSize(shots: seq<seq<byte>>): nat
  {
    if shots == [] then 0 else |shots[0]| + 4 + TotalSize(shots[1..])
  }

  /** The stream of encodable frames is as long as the frames plus four bytes of header each. */
  lemma {:induction false} WireLength(shots: seq<seq<byte>>)
    requires forall i :: 0 <= i < |shots| ==> |shots[i]| < 0x1_0000
    ensures |Wire(shots)| == TotalSize(shots)
    decreases |shots|
  {
    if shots != [] {
      WireLength(shots[1..]);
    }
  }

  /** The camera side of one stream connection. */
  class VideoStreamer {
    /** The single `bytearray(W * H * 2)` that every capture overwrites. */
    const frame: array<byte>
    /** Everything written to the stream socket so far. */
    var wire: seq<byte>
    /** The connection has been closed (`writer.aclose()`). */
    var closed: bool

    constructor(size: nat)
      ensures fresh(frame) && frame.Length == size
      ensures wire == [] && !closed
    {
      frame := new byte[size];
      wire := [];
      closed := false;
    }

    /** `cam.capture(frame)`: the camera overwrites the whole buffer with a new picture. */
    method Capture(shot: seq<byte>)
      requires |shot| == frame.Length
      modifies frame
      ensures frame[..] == shot
    {
      forall i | 0 <= i < frame.Length {
        frame[i] := shot[i];
      }
    }

    /**
      One pass of the streaming loop: capture `shot` into the buffer and write
      its message; `sent` is false, and nothing is written, when its length
      overflows two bytes.
     */
    method SendFrame(shot: seq<byte>) returns (sent: bool)
      requires |shot| == frame.Length
      modifies this, frame
      ensures frame[..] == shot && closed == old(closed)
      ensures sent <==> |shot| < 0x1_0000
      ensures wire == old(wire) + MessageBytes(shot)
    {
      Capture(shot);
      var message := EncodeMessage(frame[..]);
      if message.None? {
        return false;
      }
      wire := wire + message.value;
      return true;
    }

    /**
      The streaming loop for as long as the client stays connected, during
      which the camera takes the pictures `shots`: each one is captured into
      the buffer and its message written. An OverflowError from the length
      encoding ends the loop; the connection is closed either way.
     */
    method Stream(shots: seq<seq<byte>>)
      requires !closed
      requires forall i :: 0 <= i < |shots| ==> |shots[i]| == frame.Length
      modifies this, frame
      ensures closed
      ensures wire == old(wire) + Wire(shots)
      ensures shots != [] ==> frame[..] == shots[if frame.Length < 0x1_0000 then |shots| - 1 else 0]
    {
      var i := 0;
      while i < |shots|
        invariant 0 <= i <= |shots|
        invariant wire == old(wire) + Wire(shots[..i])
        invariant i > 0 ==> frame[..] == shots[i - 1] && frame.Length < 0x1_0000
      {
        var sent := SendFrame(shots[i]);
        if !sent {
          assert i == 0;
          WireStopsAtOverflow(shots);
          break;
        }
        WireStep(shots, i);
        AppendAssoc(old(wire), Wire(shots[..i]), MessageBytes(shots[i]));
        i := i + 1;
      }
      if i == |shots| {
        assert shots[..i] == shots;
      }
      closed := true;
    }
  }
}
