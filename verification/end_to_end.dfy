/**
  The three programs together: commands from the control endpoint through
  the serial link to the receiver, and frames from the camera's stream
  socket to the viewer.
 */
module EndToEnd {
  import opened Wrappers
  import opened Bytes
  import opened PyStr
  import opened ControlServer
  import opened VideoStream
  import opened CommandExecutor
  import opened FrameDecoder

  /** The viewer reads back the length the camera wrote. */
  lemma LengthRoundTrip(n: nat)
    requires n < 0x1_0000
    ensures FromBytesBig(U16Be(n).value) == n
  {
  }

  /** Every pair of length bytes the viewer reads is what the camera writes for that length. */
  lemma LengthBytesRoundTrip(bs: seq<byte>)
    requires |bs| == 2
    ensures U16Be(FromBytesBig(bs)) == Some(bs)
  {
    U16BeDigits(bs[0], bs[1]);
    assert bs == [bs[0], bs[1]];
  }

  /** The viewer's next frame after a camera message is exactly that message's frame. */
  lemma NextFrameOfMessage(frame: seq<byte>, rest: seq<byte>)
    requires |frame| < 0x1_0000
    ensures NextFrame(EncodeMessage(frame).value + rest) == Frame(frame, rest)
  {
    var m := EncodeMessage(frame).value;
    var s := m + rest;
    assert s[..2] == m[..2] == FrameMarker;
    assert s[2..4] == [m[2], m[3]];
    assert FromBytesBig(s[2..4]) == |frame|;
    assert s[4..4 + |frame|] == m[4..] == frame;
    assert s[4 + |frame|..] == rest;
  }

  /** Decoding the bytes of k messages gives back exactly those k frames, in order. */
  lemma {:induction false} DeframeWire(shots: seq<seq<byte>>)
    requires forall i :: 0 <= i < |shots| ==> |shots[i]| < 0x1_0000
    ensures Deframe(Wire(shots)) == shots
    decreases |shots|
  {
    if shots == [] {
      assert NextFrame([]) == Lost;
    } else {
      var m := EncodeMessage(shots[0]).value;
      assert Wire(shots) == m + Wire(shots[1..]);
      NextFrameOfMessage(shots[0], Wire(shots[1..]));
      DeframeWire(shots[1..]);
      assert Deframe(Wire(shots)) == [shots[0]] + shots[1..];
    }
  }

  /**
    When every captured frame is 80x60 RGB565, the viewer shows one image per
    frame, in order, each carrying exactly that frame's pixels, and runs
    until the stream ends.
   */
  lemma ViewWire(shots: seq<seq<byte>>)
    requires forall i :: 0 <= i < |shots| ==> |shots[i]| == FrameBytes
    ensures var v := View(Wire(shots));
      && v.stop == ConnectionLost
      && |v.images| == |shots|
      && forall i :: 0 <= i < |shots| ==> Rgb565ToBgr888(shots[i]) == Some(v.images[i]) && ToRgb565(v.images[i]) == shots[i]
  {
    DeframeWire(shots);
    ViewFrames(Wire(shots));
    var v := View(Wire(shots));
    forall i | 0 <= i < |shots| ensures ToRgb565(v.images[i]) == shots[i] {
      PayloadRoundTrip(shots[i]);
    }
  }

  /** An even-length prefix with no aligned `FR` before the camera's stream does not change the frames. */
  lemma ResyncWire(junk: seq<byte>, shots: seq<seq<byte>>)
    requires |junk| % 2 == 0 && NoAlignedMarker(junk)
    requires forall i :: 0 <= i < |shots| ==> |shots[i]| < 0x1_0000
    ensures Deframe(junk + Wire(shots)) == shots
  {
    SkipJunk(junk, Wire(shots));
    DeframeWire(shots);
  }

  /**
    The two-byte marker skip does not realign a stream shifted by one byte:
    here one stray byte before a one-frame stream loses that frame. The
    empty frame is only the smallest witness; the camera's own frames are
    9600 bytes. (A shifted stream can still fall back into step where later
    bytes happen to hold an aligned `FR`.)
   */
  lemma OddShiftLosesFrames()
    ensures Deframe(Wire([[]])) == [[]]
    ensures Deframe([0x00] + Wire([[]])) == []
  {
    DeframeWire([[]]);
    var w := Wire([[]]);
    assert w == [0x46, 0x52, 0x00, 0x00] by {
      assert EncodeMessage([]).value == FrameMarker + [0x00, 0x00] + [];
      assert Wire([[]][1..]) == [];
    }
    var s: seq<byte> := [0x00] + w;
    assert s == [0x00, 0x46, 0x52, 0x00, 0x00];
    assert s[..2][0] == 0x00;
    assert s[2..][..2][0] == 0x52;
    assert s[2..][2..] == [0x00];
    assert NextFrame(s[2..][2..]) == Lost;
  }

  /**
    A serial line without surrounding whitespace is dispatched by the receiver
    exactly as it was sent. The line holds no `\n`, so `line + "\n"` is what
    one `uart.readline()` returns; an embedded `\n` would end that read early.
   */
  lemma SerialLineReachesReceiver(line: string, num: string -> Option<real>)
    requires IsAscii(line) && '\n' !in line
    requires line != [] ==> !IsSpace(line[0]) && !IsSpace(line[|line| - 1])
    ensures Step(Encode(line + "\n"), num) == Dispatch(line, num)
  {
    assert "" + line + "\n" == line + "\n";
    assert IsAscii(line + "\n") by {
      forall i | 0 <= i < |line| + 1 ensures (line + "\n")[i] as int < 0x80 {
        if i < |line| {
          assert (line + "\n")[i] == line[i];
        }
      }
    }
    StepPaddedLine("", line, "\n", num);
  }

  /** A `GET <path> HTTP/1.1` request whose headers end is answered by routing `<path>`. */
  lemma HandleGet(path: string, following: seq<string>)
    requires ' ' !in path && "\r\n" in following
    ensures Handle("GET " + path + " HTTP/1.1\r\n", following) == Replied(Route(path).0, Route(path).1)
  {
    assert "GET " + path + " HTTP/1.1\r\n" == "GET" + " " + path + " " + "HTTP/1.1\r\n";
    PathOfRequest("GET", path, "HTTP/1.1\r\n");
  }

  /** `/move?cmd=<x>` sends `MOVE:<x>` and answers `OK`. */
  lemma MoveRoute(x: string)
    requires FindFrom(x, "cmd=", 0).None?
    ensures Route("/move?cmd=" + x) == (Some("MOVE:" + x), Plain("OK"))
  {
    assert "/move?cmd=" + x == "/move" + "?" + "cmd=" + x;
    MoveForwardsToken("?", x);
  }

  /** `GET /move?cmd=<x>` answers `OK` and sends `MOVE:<x>`. */
  lemma MoveRequest(x: string)
    requires ' ' !in x && FindFrom(x, "cmd=", 0).None?
    ensures Handle("GET " + ("/move?cmd=" + x) + " HTTP/1.1\r\n", ["\r\n"]) == Replied(Some("MOVE:" + x), Plain("OK"))
  {
    var path := "/move?cmd=" + x;
    assert ' ' !in path;
    assert ["\r\n"][0] == "\r\n";
    HandleGet(path, ["\r\n"]);
    MoveRoute(x);
  }

  /** The receiver makes the call for `MOVE:<x>`: the car drives forward exactly when `x` is `W`. */
  lemma MoveReceived(x: string, num: string -> Option<real>)
    requires IsAscii(x) && '\n' !in x && (x != [] ==> !IsSpace(x[|x| - 1]))
    ensures Step(Encode("MOVE:" + x + "\n"), num) == Dispatch("MOVE:" + x, num)
    ensures Step(Encode("MOVE:" + x + "\n"), num) == Some(Forward(5)) <==> x == "W"
  {
    var line := "MOVE:" + x;
    MoveLineEnds(x);
    SerialLineReachesReceiver(line, num);
    MoveLineIsW(x);
  }

  /** `MOVE:<x>` is one ASCII line with no whitespace at either end when `x` is such a line that does not end in whitespace. */
  lemma MoveLineEnds(x: string)
    requires IsAscii(x) && '\n' !in x && (x != [] ==> !IsSpace(x[|x| - 1]))
    ensures var line := "MOVE:" + x;
      IsAscii(line) && '\n' !in line && line != [] && !IsSpace(line[0]) && !IsSpace(line[|line| - 1])
  {
    var line := "MOVE:" + x;
    AsciiConcat("MOVE:", x);
    assert line[0] == 'M';
    if x != [] {
      assert line[|line| - 1] == x[|x| - 1];
    }
  }

  /** `MOVE:<x>` is `MOVE:W` exactly when `x` is `W`. */
  lemma MoveLineIsW(x: string)
    ensures "MOVE:" + x == "MOVE:W" <==> x == "W"
  {
    if "MOVE:" + x == "MOVE:W" {
      assert x == ("MOVE:" + x)[5..];
    }
  }

  /** `GET /arm?b=<b>&h=<h>&c=<c>` answers `OK` and sends `ARM:<b>,<h>,<c>`, whatever the values. */
  lemma ArmRequest(b: string, h: string, c: string)
    requires '&' !in b && '=' !in b && '&' !in h && '=' !in h && '&' !in c && '=' !in c
    requires ' ' !in b && ' ' !in h && ' ' !in c
    ensures Handle("GET " + ("/arm?b=" + b + "&h=" + h + "&c=" + c) + " HTTP/1.1\r\n", ["\r\n"])
      == Replied(Some("ARM:" + b + "," + h + "," + c), Plain("OK"))
  {
    var path := "/arm?b=" + b + "&h=" + h + "&c=" + c;
    assert ' ' !in path;
    assert ["\r\n"][0] == "\r\n";
    HandleGet(path, ["\r\n"]);
    ArmForwardsRawValues(b, h, c);
  }

  /**
    The receiver moves the arm to the numeric values of `ARM:<b>,<h>,<c>`
    in that order, or does nothing when one of them is not a number.
   */
  lemma ArmReceived(b: string, h: string, c: string, num: string -> Option<real>)
    requires ',' !in b && ',' !in h && ',' !in c
    requires '\n' !in b && '\n' !in h && '\n' !in c
    requires IsAscii(b) && IsAscii(h) && IsAscii(c) && (c != [] ==> !IsSpace(c[|c| - 1]))
    ensures Step(Encode("ARM:" + b + "," + h + "," + c + "\n"), num) ==
      if num(b).Some? && num(h).Some? && num(c).Some? then Some(MoveArm([num(b).value, num(h).value, num(c).value], 0.2))
      else None
  {
    var line := "ARM:" + b + "," + h + "," + c;
    AsciiConcat("ARM:", b);
    AsciiConcat("ARM:" + b, ",");
    AsciiConcat("ARM:" + b + ",", h);
    AsciiConcat("ARM:" + b + "," + h, ",");
    AsciiConcat("ARM:" + b + "," + h + ",", c);
    assert line[0] == 'A' && line[|line| - 1] == if c == [] then ',' else c[|c| - 1];
    assert '\n' !in line;
    SerialLineReachesReceiver(line, num);
    ArmDispatch(b, h, c, num);
  }

  lemma AsciiConcat(s: string, t: string)
    requires IsAscii(s) && IsAscii(t)
    ensures IsAscii(s + t)
  {
    forall i | 0 <= i < |s + t| ensures (s + t)[i] as int < 0x80 {
      if i >= |s| {
        assert (s + t)[i] == t[i - |s|];
      }
    }
  }
}
