/**
  The desktop viewer: it reads `FR` + length + payload messages from the
  camera's stream socket (`recv_exact` and the receive loop) and turns each
  80x60 RGB565 payload into a BGR image (`rgb565_to_bgr888`).
 */
module FrameDecoder {
  import opened Wrappers
  import opened Bytes

  const Width := 80
  const Height := 60
  /** `HEIGHT * WIDTH * 2`: the only payload size the reshape accepts. */
  const FrameBytes := Height * Width * 2

  /** One pixel of the converted image, channels in OpenCV's B, G, R order. */
  datatype Pixel = Bgr(b: byte, g: byte, r: byte)

  /** `Height` rows of `Width` pixels. */
  type Image = seq<seq<Pixel>>

  predicate IsImage(img: Image)
  {
    |img| == Height && forall y :: 0 <= y < Height ==> |img[y]| == Width
  }

  /**
    One RGB565 pixel stored high byte first: red is the top five bits of the
    first byte, green the next six bits across both bytes, blue the low five
    bits of the second byte, each moved to the top of an 8-bit channel.
   */
  function ConvertPixel(hi: byte, lo: byte): (p: Pixel)
    ensures p.r <= 248 && p.r & 7 == 0
    ensures p.g <= 252 && p.g & 3 == 0
    ensures p.b <= 248 && p.b & 7 == 0
  {
    Bgr((lo & 0x1F) << 3, (((hi & 0x07) << 3) | ((lo & 0xE0) >> 5)) << 2, ((hi & 0xF8) >> 3) << 3)
  }

  /** The textbook reading of a 16-bit RGB565 value: fields 15..11, 10..5 and 4..0. */
  function Expand565(v: bv16): Pixel
  {
    Bgr(((v & 0x1F) << 3) as byte, (((v >> 5) & 0x3F) << 2) as byte, ((v >> 11) << 3) as byte)
  }

  /** The viewer's byte arithmetic is the RGB565 reading of the big-endian 16-bit pixel. */
  lemma ConvertPixelIsRgb565(hi: byte, lo: byte)
    ensures ConvertPixel(hi, lo) == Expand565(((hi as bv16) << 8) | (lo as bv16))
  {
  }

  /** The two RGB565 bytes of a colour: the top five, six and five bits of red, green and blue. */
  function Pack565(p: Pixel): (byte, byte)
  {
    ((p.r & 0xF8) | (p.g >> 5), (((p.g >> 2) & 7) << 5) | (p.b >> 3))
  }

  /** The conversion loses nothing: the two bytes can be read back from the colour. */
  lemma PackConvert(hi: byte, lo: byte)
    ensures Pack565(ConvertPixel(hi, lo)) == (hi, lo)
  {
  }

  /** Every colour whose channels are multiples of 8, 4 and 8 is produced by exactly its packed bytes. */
  lemma ConvertPack(p: Pixel)
    requires p.r & 7 == 0 && p.g & 3 == 0 && p.b & 7 == 0
    ensures ConvertPixel(Pack565(p).0, Pack565(p).1) == p
  {
  }

  /** Pure red, pure green and pure blue. */
  lemma ConvertPixelExamples()
    ensures ConvertPixel(0xF8, 0x00) == Bgr(0, 0, 248)
    ensures ConvertPixel(0x07, 0xE0) == Bgr(0, 252, 0)
    ensures ConvertPixel(0x00, 0x1F) == Bgr(248, 0, 0)
  {
  }

  /**
    `rgb565_to_bgr888(data)`: the payload reshaped to `Height` x `Width` x 2
    and converted pixel by pixel; `None` where the reshape raises ValueError.
   */
  function Rgb565ToBgr888(data: seq<byte>): (img: Option<Image>)
    ensures img.None? <==> |data| != FrameBytes
    ensures img.Some? ==> IsImage(img.value)
  {
    if |data| != FrameBytes then None
    else
      Some(seq(Height, y requires 0 <= y < Height =>
        seq(Width, x requires 0 <= x < Width =>
          ConvertPixel(data[2 * (Width * y + x)], data[2 * (Width * y + x) + 1]))))
  }

  /** The RGB565 payload of an image, row by row, two bytes per pixel. */
  function ToRgb565(img: Image): (data: seq<byte>)
    requires IsImage(img)
    ensures |data| == FrameBytes
  {
    seq(FrameBytes, i requires 0 <= i < FrameBytes =>
      var y, x := (i / 2) / Width, (i / 2) % Width;
      if i % 2 == 0 then Pack565(img[y][x]).0 else Pack565(img[y][x]).1)
  }

  /** Converting a payload and packing the image again gives back the payload. */
  lemma PayloadRoundTrip(data: seq<byte>)
    requires |data| == FrameBytes
    ensures ToRgb565(Rgb565ToBgr888(data).value) == data
  {
    var img := Rgb565ToBgr888(data).value;
    forall i | 0 <= i < FrameBytes ensures ToRgb565(img)[i] == data[i] {
      var k := i / 2;
      var y, x := k / Width, k % Width;
      assert 2 * (Width * y + x) == 2 * k;
      PackConvert(data[2 * k], data[2 * k + 1]);
    }
  }

  /** Pixel (y, x) sits at bytes 2 * (Width * y + x) and the one after it. */
  lemma PixelOffset(y: int, x: int)
    requires 0 <= y < Height && 0 <= x < Width
    ensures var i := 2 * (Width * y + x);
      0 <= i < FrameBytes - 1 && i % 2 == 0 && (i / 2) / Width == y && (i / 2) % Width == x
      && ((i + 1) / 2) / Width == y && ((i + 1) / 2) % Width == x && (i + 1) % 2 == 1
  {
  }

  /** The packed payload holds pixel (y, x) at its two offsets. */
  lemma PackedPixel(img: Image, y: int, x: int)
    requires IsImage(img) && 0 <= y < Height && 0 <= x < Width
    ensures var data, i := ToRgb565(img), 2 * (Width * y + x);
      0 <= i < |data| - 1 && data[i] == Pack565(img[y][x]).0 && data[i + 1] == Pack565(img[y][x]).1
  {
    PixelOffset(y, x);
  }

  /** Packing an image of RGB565 colours and converting it gives back the image. */
  lemma ImageRoundTrip(img: Image)
    requires IsImage(img)
    requires forall y, x :: 0 <= y < Height && 0 <= x < Width ==>
      img[y][x].r & 7 == 0 && img[y][x].g & 3 == 0 && img[y][x].b & 7 == 0
    ensures Rgb565ToBgr888(ToRgb565(img)) == Some(img)
  {
    var data := ToRgb565(img);
    var back := Rgb565ToBgr888(data).value;
    forall y, x | 0 <= y < Height && 0 <= x < Width ensures back[y][x] == img[y][x] {
      PackedPixel(img, y, x);
      ConvertPack(img[y][x]);
    }
    forall y | 0 <= y < Height ensures back[y] == img[y] { }
    assert back == img;
  }

  /** `int.from_bytes(bs, 'big')`. */
  function FromBytesBig(bs: seq<byte>): (n: nat)
    ensures |bs| == 1 ==> n == bs[0] as int
    ensures |bs| == 2 ==> n == bs[0] as int * 256 + bs[1] as int
  {
    if bs == [] then 0 else FromBytesBig(bs[..|bs| - 1]) * 256 + bs[|bs| - 1] as int
  }

  /** The viewer's socket. `incoming` is what the camera has yet to deliver before it closes. */
  class Connection {
    var incoming: seq<byte>

    constructor(stream: seq<byte>)
      ensures incoming == stream
    {
      incoming := stream;
    }

    /**
      `sock.recv(max)`: the next chunk of at most `max` bytes, of whatever
      size the network delivers; empty exactly when the peer has closed.
     */
    method Recv(max: nat) returns (part: seq<byte>)
      requires max >= 1
      modifies this
      ensures part == [] <==> old(incoming) == []
      ensures |part| <= max && part <= old(incoming)
      ensures incoming == old(incoming)[|part|..]
    {
      var n := if max < |incoming| then max else |incoming|;
      part := incoming[..n];
      incoming := incoming[n..];
    }
  }

  /**
    `recv_exact(sock, size)`: exactly the next `size` bytes, gathered from
    as many chunks as it takes; `None` where it raises ConnectionError because
    the peer closed first, having consumed everything that was left.
   */
  method RecvExact(conn: Connection, size: nat) returns (r: Option<seq<byte>>)
    modifies conn
    ensures r.Some? <==> size <= |old(conn.incoming)|
    ensures r.Some? ==> r.value == old(conn.incoming)[..size] && conn.incoming == old(conn.incoming)[size..]
    ensures r.None? ==> conn.incoming == []
  {
    var buf := [];
    while |buf| < size
      invariant |buf| <= size
      invariant buf + conn.incoming == old(conn.incoming)
      decreases size - |buf|
    {
      var part := conn.Recv(size - |buf|);
      if part == [] {
        return None;
      }
      buf := buf + part;
    }
    assert old(conn.incoming)[..size] == buf;
    return Some(buf);
  }

  /** Where the receive loop stands after reading the next frame. */
  datatype Next = Lost | Frame(payload: seq<byte>, rest: seq<byte>)

  /**
    The receive loop up to its next payload: two-byte reads that are not `FR`
    are dropped whole; then a big-endian length and that many payload bytes.
    `Lost` where the stream ends first.
   */
  function NextFrame(s: seq<byte>): (r: Next)
    ensures r.Frame? ==> 4 + |r.payload| + |r.rest| <= |s|
    decreases |s|
  {
    if |s| < 2 then Lost
    else if s[..2] != FrameMarker then NextFrame(s[2..])
    else if |s| < 4 then Lost
    else
      var n := FromBytesBig(s[2..4]);
      if |s| < 4 + n then Lost else Frame(s[4..4 + n], s[4 + n..])
  }

  /** The payload and the rest are the stream's bytes: the rest is a suffix and the payload comes just before it. */
  lemma {:induction false} NextFrameSlices(s: seq<byte>)
    requires NextFrame(s).Frame?
    ensures var r := NextFrame(s);
      r.rest == s[|s| - |r.rest|..] && r.payload == s[|s| - |r.rest| - |r.payload|..|s| - |r.rest|]
    decreases |s|
  {
    if s[..2] != FrameMarker {
      var t, r := s[2..], NextFrame(s);
      NextFrameSlices(t);
      SuffixSlice(s, 2, |t| - |r.rest| - |r.payload|, |t| - |r.rest|);
    }
  }

  /** A slice of the suffix `s[d..]` is the slice of `s` shifted by `d`. */
  lemma SuffixSlice(s: seq<byte>, d: nat, a: nat, b: nat)
    requires d <= |s| && a <= b <= |s| - d
    ensures s[d..][a..b] == s[d + a..d + b] && s[d..][b..] == s[d + b..]
  {
  }

  /** The payloads of all complete messages, in order. */
  function Deframe(s: seq<byte>): seq<seq<byte>>
    decreases |s|
  {
    match NextFrame(s)
    case Lost => []
    case Frame(payload, rest) => [payload] + Deframe(rest)
  }

  /** Why the viewer stopped: the peer closed (ConnectionError), or a payload was not 80x60 (ValueError). */
  datatype Stop = ConnectionLost | BadFrameSize(size: nat)

  /** The images the viewer showed, in order, and why it stopped. */
  datatype Viewing = Viewing(images: seq<Image>, stop: Stop)

  function View(s: seq<byte>): Viewing
    decreases |s|
  {
    match NextFrame(s)
    case Lost => Viewing([], ConnectionLost)
    case Frame(payload, rest) =>
      match Rgb565ToBgr888(payload)
      case None => Viewing([], BadFrameSize(|payload|))
      case Some(img) =>
        var v := View(rest);
        Viewing([img] + v.images, v.stop)
  }

  /**
    The images are the converted payloads `d`, in order, up to the first one
    of the wrong size, at which the viewer stops; when every payload has the
    right size it runs until the stream ends.
   */
  predicate ShowsPayloads(v: Viewing, d: seq<seq<byte>>)
  {
    && |v.images| <= |d|
    && (forall i :: 0 <= i < |v.images| ==> Rgb565ToBgr888(d[i]) == Some(v.images[i]))
    && (v.stop == ConnectionLost <==> |v.images| == |d|)
    && (v.stop.BadFrameSize? ==> v.stop.size == |d[|v.images|]| != FrameBytes)
  }

  /** What the viewer shows is the converted payloads of the stream. */
  lemma {:induction false} ViewFrames(s: seq<byte>)
    ensures ShowsPayloads(View(s), Deframe(s))
    decreases |s|
  {
    match NextFrame(s)
    case Lost =>
    case Frame(payload, rest) =>
      ViewFrames(rest);
      ShowsOneMore(s, payload, rest);
  }

  lemma ShowsOneMore(s: seq<byte>, payload: seq<byte>, rest: seq<byte>)
    requires NextFrame(s) == Frame(payload, rest)
    requires ShowsPayloads(View(rest), Deframe(rest))
    ensures ShowsPayloads(View(s), Deframe(s))
  {
    assert Deframe(s) == [payload] + Deframe(rest);
    if Rgb565ToBgr888(payload).Some? {
      ShowsConverted(View(rest), Deframe(rest), payload, Rgb565ToBgr888(payload).value);
    }
  }

  lemma ShowsConverted(v: Viewing, d: seq<seq<byte>>, payload: seq<byte>, img: Image)
    requires ShowsPayloads(v, d)
    requires Rgb565ToBgr888(payload) == Some(img)
    ensures ShowsPayloads(Viewing([img] + v.images, v.stop), [payload] + d)
  {
    var images, d' := [img] + v.images, [payload] + d;
    forall i | 1 <= i < |images| ensures Rgb565ToBgr888(d'[i]) == Some(images[i]) {
      assert d'[i] == d[i - 1] && images[i] == v.images[i - 1];
    }
  }

  /** No two-byte step of `junk` reads `FR`. */
  predicate NoAlignedMarker(junk: seq<byte>)
  {
    forall k :: 0 <= k < |junk| / 2 ==> junk[2 * k..2 * k + 2] != FrameMarker
  }

  /**
    Bytes before a valid stream are skipped when there is an even number of
    them and none of their two-byte steps reads `FR`.
   */
  lemma {:induction false} SkipJunk(junk: seq<byte>, s: seq<byte>)
    requires |junk| % 2 == 0 && NoAlignedMarker(junk)
    ensures NextFrame(junk + s) == NextFrame(s)
    ensures Deframe(junk + s) == Deframe(s)
    ensures View(junk + s) == View(s)
    decreases |junk|
  {
    if junk == [] {
      assert junk + s == s;
    } else {
      var k := 0;
      assert junk[2 * k..2 * k + 2] != FrameMarker;
      assert (junk + s)[..2] == junk[0..2];
      assert (junk + s)[2..] == junk[2..] + s;
      forall k | 0 <= k < |junk[2..]| / 2 ensures junk[2..][2 * k..2 * k + 2] != FrameMarker {
        assert junk[2..][2 * k..2 * k + 2] == junk[2 * (k + 1)..2 * (k + 1) + 2];
      }
      SkipJunk(junk[2..], s);
    }
  }

  /** The stream ends before a marker, a length or a whole payload could be read. */
  lemma NextLost(s: seq<byte>)
    requires |s| < 2 || (s[..2] == FrameMarker && (|s| < 4 || |s| < 4 + FromBytesBig(s[2..4])))
    ensures NextFrame(s) == Lost
  {
  }

  /** Streams that reach the same next frame show the same. */
  lemma ViewSameNext(s: seq<byte>, t: seq<byte>)
    requires NextFrame(s) == NextFrame(t)
    ensures View(s) == View(t)
  {
  }

  /** What one pass of the receive loop read. */
  datatype Read = Closed | Skipped | Message(payload: seq<byte>)

  /**
    One pass of the receive loop up to the conversion: two bytes for the
    marker (dropped unless they are `FR`), two for the length, then the payload.
   */
  method ReadMessage(conn: Connection) returns (r: Read)
    modifies conn
    ensures r.Closed? ==> NextFrame(old(conn.incoming)) == Lost && conn.incoming == []
    ensures r.Skipped? ==>
      |old(conn.incoming)| >= 2 && old(conn.incoming)[..2] != FrameMarker && conn.incoming == old(conn.incoming)[2..]
    ensures r.Skipped? ==> NextFrame(old(conn.incoming)) == NextFrame(conn.incoming)
    ensures r.Message? ==> NextFrame(old(conn.incoming)) == Frame(r.payload, conn.incoming)
  {
    ghost var s := conn.incoming;
    var marker := RecvExact(conn, 2);
    if marker.None? {
      NextLost(s);
      return Closed;
    }
    if marker.value != FrameMarker {
      assert marker.value == s[..2];
      return Skipped;
    }
    var sizeBytes := RecvExact(conn, 2);
    if sizeBytes.None? {
      NextLost(s);
      return Closed;
    }
    assert sizeBytes.value == s[2..4];
    var frameSize := FromBytesBig(sizeBytes.value);
    var buf := RecvExact(conn, frameSize);
    if buf.None? {
      NextLost(s);
      return Closed;
    }
    assert buf.value == s[4..4 + frameSize] && conn.incoming == s[4 + frameSize..];
    return Message(buf.value);
  }

  /**
    The receive loop: marker, length and payload, over and over, until
    ConnectionError or a payload the reshape rejects ends it.
   */
  method ReceiveLoop(conn: Connection) returns (images: seq<Image>, stop: Stop)
    modifies conn
    ensures Viewing(images, stop) == View(old(conn.incoming))
  {
    images := [];
    stop := ConnectionLost;
    while true
      invariant View(old(conn.incoming)) == Viewing(images + View(conn.incoming).images, View(conn.incoming).stop)
      decreases |conn.incoming|
    {
      ghost var s := conn.incoming;
      var read := ReadMessage(conn);
      match read {
        case Closed =>
          assert images + [] == images;
          return;
        case Skipped =>
          ViewSameNext(s, conn.incoming);
        case Message(payload) =>
          var frame := Rgb565ToBgr888(payload);
          if frame.None? {
            assert images + [] == images;
            stop := BadFrameSize(|payload|);
            return;
          }
          ghost var v := View(conn.incoming);
          assert View(s) == Viewing([frame.value] + v.images, v.stop);
          assert images + [frame.value] + v.images == images + ([frame.value] + v.images);
          images := images + [frame.value];
      }
    }
  }
}
