# Tele-operated car: command and video paths

This project models the control plane of a two-board robot car in Dafny and proves properties of it.

- **Camera board** (`main_Carro_Camara.py`). It serves a small HTTP control endpoint (`http_client`). That endpoint turns `/move?cmd=<x>` and `/arm?b=<b>&h=<h>&c=<c>` requests into one serial line each (`tx_uart`). The board also streams camera frames over TCP as `FR` + a two-byte big-endian length + the RGB565 payload (`video_stream`).
- **Motor board** (`main_Carro_Motores.py`). It reads serial lines (`uart.readline()`), strips them, and dispatches each line to at most one motor or arm call (`ejecutar_linea`).
- **Desktop viewer** (`clientepython2.0.py`). It reads messages from the stream socket (`recv_exact` and the receive loop). It drops two-byte reads that are not `FR`, and converts each 80x60 RGB565 payload to a BGR image (`rgb565_to_bgr888`).

Modules, one file each:

- `Wrappers`: the `Option` type.
- `Bytes`: bytes as `bv8` and ASCII encoding and decoding.
- `PyStr`: the Python string operations the programs use.
  - `split` with a one-character separator, and its inverse `Join`.
  - `split(pat)[-1]`, `split(c, 1)[1]` and MicroPython's `strip`.
- `ControlServer`: `http_client` and `tx_uart`.
- `VideoStream`: the frame encoding and the streaming loop over the shared frame buffer.
- `CommandExecutor`: `ejecutar_linea` and the read loop.
- `FrameDecoder`: pixel conversion, `recv_exact`, and the receive loop.
- `EndToEnd`: the three programs composed.
  - A request's serial line that is ASCII, holds no newline and has no whitespace at either end reaches the receiver's dispatch unchanged.
  - The viewer decodes the camera's byte stream back into exactly the frames sent.

Behaviour of the code that the model keeps as written:

- `/arm` does not check that the values are numbers. It forwards the raw value texts and answers `OK` (`main_Carro_Camara.py:168-173`, `ControlServer.ArmForwardsRawValues`).
- The receiver does not clamp the arm angles (`main_Carro_Motores.py:36-37`).
- The receiver strips whitespace from both ends of a line (`main_Carro_Motores.py:51`).
- The viewer drops a wrong marker two bytes at a time (`clientepython2.0.py:30-33`). This skip does not realign a stream shifted by one byte. `EndToEnd.OddShiftLosesFrames` shows one stream where a single stray byte loses the frame that follows it.
- A payload that is not 80x60x2 bytes makes the reshape raise. Nothing catches that, so the viewer stops (`FrameDecoder.View`, `BadFrameSize`).
- The handler skips headers by reading until a line is exactly `\r\n`. If the connection ends first, MicroPython's `readline` keeps returning `b''` and the handler never finishes. The model records that case as the `Stalled` outcome.

## Model

| member | source | states |
|---|---|---|
| PyStr.Split | main_Carro_Camara.py:159 | `split(sep)` always yields at least one piece and no piece holds the separator |
| PyStr.JoinSplit | main_Carro_Camara.py:159 | joining the pieces of `split(sep)` with `sep` gives back the text |
| PyStr.SplitJoin | main_Carro_Camara.py:171 | splitting the join of separator-free pieces gives back exactly those pieces |
| PyStr.JoinCons | main_Carro_Camara.py:159 | joining `[first] + more` puts `first` and a separator before the join of `more` |
| PyStr.SplitMany | main_Carro_Camara.py:159 | a text splits into two or more pieces exactly when it holds the separator |
| PyStr.SplitSecond | main_Carro_Camara.py:171 | the first two pieces of `split(sep)` are the text before the first separator, then the text up to the next separator or the end |
| PyStr.SplitSecondAfter | main_Carro_Camara.py:159 | the second piece of `split(sep)` is the start of the text after the first separator, ending at the next separator or the end |
| PyStr.FindFrom | main_Carro_Camara.py:164 | the result is the leftmost occurrence of the pattern from `start`, and `None` exactly when there is none |
| PyStr.LastPieceStart | main_Carro_Camara.py:164 | where the last piece of `split(pat)` begins: just after an occurrence, with none from there on, or at the start when there is no occurrence |
| PyStr.AfterLast | main_Carro_Camara.py:164 | `split(pat)[-1]` is a suffix holding no occurrence; it is the whole text exactly when `pat` does not occur, and otherwise follows an occurrence |
| PyStr.AfterLastOfSuffix | main_Carro_Camara.py:164 | for a pattern that cannot overlap itself (such as `cmd=`), `(w + pat + x).split(pat)[-1]` is `x` whenever `x` holds no `pat` |
| PyStr.AfterFirst | main_Carro_Camara.py:170 | `split(sep, 1)[1]` fails exactly when `sep` is absent, and is otherwise the text after the first `sep` |
| PyStr.StripLeft | main_Carro_Motores.py:51 | the result is a suffix, everything dropped is whitespace, and it does not start with whitespace |
| PyStr.StripRight | main_Carro_Motores.py:51 | the result is a prefix, everything dropped is whitespace, and it does not end with whitespace |
| PyStr.StripSlice | main_Carro_Motores.py:51 | `strip()` keeps a slice `s[i..j]`, drops only whitespace on both sides, and leaves no whitespace at either end |
| PyStr.StripFixed | main_Carro_Motores.py:51 | text with no whitespace at either end is left unchanged |
| PyStr.StripIdempotent | main_Carro_Motores.py:51 | stripping twice is stripping once |
| PyStr.StripPadded | main_Carro_Motores.py:51 | stripping text padded with whitespace on both sides gives back the text |
| Bytes.Encode | main_Carro_Camara.py:49 | encoding ASCII text gives one byte per character with the same code |
| Bytes.Decode | main_Carro_Motores.py:51 | decoding fails exactly when some byte is 0x80 or more, and otherwise gives one ASCII character per byte with the same code |
| Bytes.DecodeEncode | main_Carro_Motores.py:51 | decoding undoes encoding |
| Bytes.EncodeDecode | main_Carro_Motores.py:51 | encoding undoes a successful decoding |
| ControlServer.PathOf | main_Carro_Camara.py:159 | `req_line.split(' ')[1]` fails (IndexError) exactly when the line has no space; the path holds no space |
| ControlServer.PathText | main_Carro_Camara.py:159 | the path is the text after the first space, up to the next space or the end of the line |
| ControlServer.PathOfRequest | main_Carro_Camara.py:159 | the path of `<verb> <path> <rest>` is `<path>`, the second space-separated token |
| ControlServer.KeyValue | main_Carro_Camara.py:171 | `kv.split('=')[0]` and `[1]` fail exactly when the piece has no `=`; neither part holds `=` |
| ControlServer.KeyValueText | main_Carro_Camara.py:171 | the key is the text before the first `=`, and the value is the text after it up to the next `=` or the end |
| ControlServer.BuildMap | main_Carro_Camara.py:171 | the dict comprehension fails exactly when some piece lacks `=`; otherwise every piece's key is in the dict, mapped to the value of the last piece that sets it |
| ControlServer.SettingAppended | main_Carro_Camara.py:171 | one more piece `k=v` adds its key and becomes the last setting of `k`; every other key keeps its last setting |
| ControlServer.BuildMapLast | main_Carro_Camara.py:171 | the dict maps each key to the value of its last setting piece |
| ControlServer.KeyValueOf | main_Carro_Camara.py:171 | a piece `k=v` with no other `=` has key `k` and value `v` |
| ControlServer.SettingsMap | main_Carro_Camara.py:171 | pieces setting `b`, `h`, `c` (with `b` possibly set again last) build a dict holding the last value of each |
| ControlServer.SettingsLast | main_Carro_Camara.py:171 | in those pieces, the named pieces are the last settings of `b`, `h` and `c` |
| ControlServer.Route | main_Carro_Camara.py:163-180 | `/move` first, then `/arm`, then the page: the page is served exactly for other paths and sends nothing; a plain reply is `OK` exactly when a line is sent and `ERR` exactly when none is; `/move` sends `MOVE:` + the text after the last `cmd=` |
| ControlServer.Handle | main_Carro_Camara.py:155-184 | an empty request line ends silently; a line without a space aborts; headers that never end stall; otherwise the reply and serial line are the path's route |
| ControlServer.SerialOut | main_Carro_Camara.py:165 | something is written on the serial link exactly when the handler replied with a command, and it ends with a newline |
| ControlServer.ResponseText | main_Carro_Camara.py:177-183 | every response starts with `HTTP/1.1 200 OK`; the page has `Content-Type:text/html` and ends with the page; `OK`/`ERR` have `Content-Type:text/plain` and end with the body |
| ControlServer.Uart.constructor | main_Carro_Camara.py:46 | a new serial port has sent nothing |
| ControlServer.Uart.TxUart | main_Carro_Camara.py:48-49 | `tx_uart(m)` appends exactly `m` and one newline to what was sent |
| ControlServer.SkipHeaders | main_Carro_Camara.py:160-161 | the loop finds a line that is exactly `\r\n` exactly when there is one, and stops just after the first such line; otherwise it reads every line |
| ControlServer.Forward | main_Carro_Camara.py:163-176 | the serial line sent and the reply are `Route(path)`, and the port gains exactly that line plus a newline, or nothing |
| ControlServer.HttpClient | main_Carro_Camara.py:155-184 | the outcome is `Handle(reqLine, following)`; the port gains exactly `SerialOut` of it; a reply writes `ResponseText`, and the other outcomes write nothing |
| ControlServer.CmdNoSelfOverlap | main_Carro_Camara.py:164 | `cmd=` cannot overlap itself |
| ControlServer.MoveForwardsToken | main_Carro_Camara.py:163-166 | any `/move…cmd=<x>` path with no later `cmd=` sends exactly `MOVE:<x>`, unvalidated, and answers `OK` |
| ControlServer.MoveWithoutCmd | main_Carro_Camara.py:164-166 | a `/move` path without `cmd=` sends `MOVE:` + the whole path and answers `OK` |
| ControlServer.ArmRejects | main_Carro_Camara.py:168-175 | an `/arm` path answers `ERR` and sends nothing exactly when it has no `?`, some `&`-piece of the query lacks `=`, or one of `b`, `h`, `c` is missing |
| ControlServer.ArmQuerySplits | main_Carro_Camara.py:171 | the query `b=<b>&h=<h>&c=<c>` splits into its three pieces, each with its key and value |
| ControlServer.ArmQueryMap | main_Carro_Camara.py:170-171 | that query parses to the dict `{b: <b>, h: <h>, c: <c>}` |
| ControlServer.ArmQueryText | main_Carro_Camara.py:168-171 | `/arm?<qs>` is taken as an `/arm` path, the text after its first `?` is `<qs>`, and its query dict is the one built from `<qs>` |
| ControlServer.ArmRoute | main_Carro_Camara.py:168-173 | an `/arm` path whose query dict has `b`, `h` and `c` sends `ARM:<b>,<h>,<c>` and answers `OK` |
| ControlServer.ArmQueryRoute | main_Carro_Camara.py:168-173 | `/arm?<qs>`, where the pieces of `<qs>` build a dict with `b`, `h` and `c`, sends `ARM:<b>,<h>,<c>` from that dict and answers `OK` |
| ControlServer.RouteArm | main_Carro_Camara.py:163-175 | an `/arm` path is never taken for `/move`; it sends its arm line if there is one (`OK`) and otherwise nothing (`ERR`) |
| ControlServer.ArmForwardsRawValues | main_Carro_Camara.py:168-173 | `/arm?b=<b>&h=<h>&c=<c>` sends exactly `ARM:<b>,<h>,<c>` with the raw texts in that order, numeric or not, and answers `OK` |
| ControlServer.ArmLaterKeyWins | main_Carro_Camara.py:171-172 | a later `b=` overrides an earlier one in the line sent |
| ControlServer.LaterKeySplits | main_Carro_Camara.py:171 | the query with a repeated `b` splits into its four pieces in order |
| ControlServer.LaterKeyMap | main_Carro_Camara.py:171 | the pieces `b=<b0>`, `h=<h>`, `c=<c>`, `b=<b>` build the dict `{b: <b>, h: <h>, c: <c>}` |
| VideoStream.U16Be | main_Carro_Camara.py:193 | `to_bytes(2, 'big')` fails (OverflowError) exactly for 65536 or more, and otherwise gives two bytes `hi`, `lo` with `256*hi + lo == n` |
| VideoStream.U16BeDigits | main_Carro_Camara.py:193 | the two bytes written for `256*hi + lo` are `hi` and `lo` |
| VideoStream.BaseDigitsUnique | main_Carro_Camara.py:193 | two base-256 digits are determined by the number they write |
| VideoStream.EncodeMessage | main_Carro_Camara.py:193 | a message is `FR`, then the length in two big-endian bytes, then the frame, `len(frame) + 4` bytes in all; there is no message exactly when the length does not fit in two bytes |
| VideoStream.WireSnoc | main_Carro_Camara.py:190-193 | sending one more frame after encodable ones appends exactly its message |
| VideoStream.WireStep | main_Carro_Camara.py:190-193 | after `i` encodable frames, the bytes for `i + 1` frames extend those for `i` by message `i` |
| VideoStream.WireStopsAtOverflow | main_Carro_Camara.py:193-198 | when the first frame is too long to encode, nothing is written |
| VideoStream.WireLength | main_Carro_Camara.py:193 | the stream of encodable frames is as long as the frames plus four bytes each |
| VideoStream.VideoStreamer.constructor | main_Carro_Camara.py:63 | the frame buffer is a fresh array of the given size; nothing is written and the connection is open |
| VideoStream.VideoStreamer.Capture | main_Carro_Camara.py:191 | a capture overwrites the whole shared buffer with the new picture |
| VideoStream.VideoStreamer.SendFrame | main_Carro_Camara.py:191-194 | one pass captures into the buffer and appends exactly that frame's message; it reports failure, and writes nothing, exactly when the length overflows |
| VideoStream.VideoStreamer.Stream | main_Carro_Camara.py:187-198 | the loop writes exactly `Wire(shots)`, all the messages up to the first that overflows; the connection is closed; the buffer holds the last picture captured |
| CommandExecutor.ParseAll | main_Carro_Motores.py:36 | `map(float, fields)` fails exactly when some field does not parse, and otherwise gives each field's value in order |
| CommandExecutor.Dispatch | main_Carro_Motores.py:25-42 | `MOVE:W`/`S`/`A`/`D` and only they drive forward 5, back 5, left 30, right 30; the arm moves exactly for `ARM:` with three fields that all parse, to those values in order and unclamped, over 0.2 s; every other line makes no call |
| CommandExecutor.Step | main_Carro_Motores.py:47-51 | an empty read or an undecodable line makes no call; otherwise the call is the dispatch of the stripped text |
| CommandExecutor.ReadLoop | main_Carro_Motores.py:46-53 | the loop makes exactly the calls `Actions(received)`, read by read in arrival order |
| CommandExecutor.ActionsAppend | main_Carro_Motores.py:46-53 | the calls for two stretches of input are the first stretch's calls followed by the second's |
| CommandExecutor.ActionsAtMostOnePerRead | main_Carro_Motores.py:46-51 | each read makes at most one call |
| CommandExecutor.NoCallDropsOut | main_Carro_Motores.py:46-53 | a read that makes no call leaves the calls of the surrounding input unchanged |
| CommandExecutor.EmptyReadSkipped | main_Carro_Motores.py:48-49 | a timeout (empty read) changes nothing and the loop goes on |
| CommandExecutor.UndecodableSkipped | main_Carro_Motores.py:50-53 | a line that fails to decode is dropped and the loop goes on |
| CommandExecutor.StepPaddedLine | main_Carro_Motores.py:51 | a line sent with any whitespace around it is dispatched as the line itself |
| CommandExecutor.DigitsValue | main_Carro_Motores.py:36 | a stand-in for `float` that parses exactly the non-empty digit strings, to non-negative values |
| CommandExecutor.MoveExamples | main_Carro_Motores.py:26-32 | `MOVE:W` drives forward 5; `MOVE:Q`, `MOVE:w` and `move:W` make no call |
| CommandExecutor.ArmFields | main_Carro_Motores.py:36 | the fields after `ARM:` in `ARM:<x>,<y>,<z>` are `x`, `y`, `z` |
| CommandExecutor.ArmDispatch | main_Carro_Motores.py:34-39 | `ARM:<b>,<h>,<c>` moves the arm to the three parsed values in order over 0.2 s when all parse, and otherwise makes no call |
| CommandExecutor.ArmNumericExample | main_Carro_Motores.py:34-37 | `ARM:10,20,30` moves the arm to 10, 20 and 30 over 0.2 seconds |
| CommandExecutor.ArmNonNumericExample | main_Carro_Motores.py:36-39 | `ARM:abc,20,30` makes no call |
| CommandExecutor.ArmTwoFieldsExample | main_Carro_Motores.py:36-39 | `ARM:10,20`, with two fields, makes no call, whatever `float` does |
| FrameDecoder.ConvertPixel | clientepython2.0.py:11-13 | red and blue are at most 248 and multiples of 8; green is at most 252 and a multiple of 4 |
| FrameDecoder.ConvertPixelIsRgb565 | clientepython2.0.py:11-13 | the byte arithmetic is the standard RGB565 reading of the big-endian 16-bit pixel |
| FrameDecoder.PackConvert | clientepython2.0.py:11-13 | the conversion loses nothing: both bytes can be read back from the colour |
| FrameDecoder.ConvertPack | clientepython2.0.py:11-13 | every colour with channels that are multiples of 8, 4 and 8 is produced from its packed bytes |
| FrameDecoder.ConvertPixelExamples | clientepython2.0.py:11-14 | `F8 00` gives B,G,R (0,0,248); `07 E0` gives (0,252,0); `00 1F` gives (248,0,0) |
| FrameDecoder.Rgb565ToBgr888 | clientepython2.0.py:9-14 | the conversion fails exactly when the payload is not 60·80·2 = 9600 bytes, and otherwise gives 60 rows of 80 pixels |
| FrameDecoder.ToRgb565 | clientepython2.0.py:10 | packing an image gives a payload of exactly 9600 bytes |
| FrameDecoder.PayloadRoundTrip | clientepython2.0.py:9-14 | converting a payload and packing the image gives back the payload |
| FrameDecoder.PixelOffset | clientepython2.0.py:10 | pixel (y, x) of the reshape is at bytes `2*(80*y + x)` and the next one |
| FrameDecoder.PackedPixel | clientepython2.0.py:10 | the packed payload holds pixel (y, x) at those two offsets |
| FrameDecoder.ImageRoundTrip | clientepython2.0.py:9-14 | converting the packed bytes of an RGB565 image gives back the image |
| FrameDecoder.FromBytesBig | clientepython2.0.py:36 | `int.from_bytes(bs, 'big')` of two bytes is `256*hi + lo` |
| FrameDecoder.Connection.constructor | clientepython2.0.py:25-26 | a new connection has the whole stream still to deliver |
| FrameDecoder.Connection.Recv | clientepython2.0.py:19 | `recv(max)` returns a prefix of what is left, of at most `max` bytes, and removes it; it is empty exactly when the peer has closed |
| FrameDecoder.RecvExact | clientepython2.0.py:16-23 | exactly the next `size` bytes, in order, whatever the chunk sizes; it fails (ConnectionError) exactly when fewer are left, having consumed them all |
| FrameDecoder.NextFrame | clientepython2.0.py:30-37 | a frame found takes at least its payload, its rest and four bytes of the stream |
| FrameDecoder.NextFrameSlices | clientepython2.0.py:30-37 | the payload and the rest are consecutive slices of the stream, and the rest is its suffix |
| FrameDecoder.ViewFrames | clientepython2.0.py:28-39 | the images shown are the converted payloads in order, up to the first one of the wrong size, where the viewer stops; otherwise it runs until the stream ends |
| FrameDecoder.ShowsOneMore | clientepython2.0.py:28-39 | one more message in front keeps what is shown equal to the converted payloads |
| FrameDecoder.ShowsConverted | clientepython2.0.py:39 | a converted payload in front is the first image shown |
| FrameDecoder.SkipJunk | clientepython2.0.py:30-33 | an even number of leading bytes with no aligned `FR` changes neither the next frame, nor the frames, nor what is shown |
| FrameDecoder.NextLost | clientepython2.0.py:30-37 | a stream that ends before a marker, a length or a whole payload yields no frame |
| FrameDecoder.ViewSameNext | clientepython2.0.py:29-39 | streams that reach the same next frame show the same |
| FrameDecoder.ReadMessage | clientepython2.0.py:30-37 | one pass reads what `NextFrame` predicts: a closed stream when it finds none, with everything consumed; a skipped marker when the first two bytes are not `FR`, consuming exactly those two and keeping the same next frame; or the payload with the rest left unread |
| FrameDecoder.ReceiveLoop | clientepython2.0.py:28-44 | the loop shows exactly the images of `View` of the incoming stream, and stops for the reason `View` gives |
| EndToEnd.LengthRoundTrip | clientepython2.0.py:35-36 | the viewer reads back every length the camera writes |
| EndToEnd.LengthBytesRoundTrip | main_Carro_Camara.py:193 | every pair of length bytes the viewer reads is what the camera writes for that length |
| EndToEnd.NextFrameOfMessage | clientepython2.0.py:30-37 | the next frame after a camera message is exactly that message's frame, with the rest untouched |
| EndToEnd.DeframeWire | clientepython2.0.py:29-37 | decoding the bytes of k messages yields exactly those k frames, in order |
| EndToEnd.ViewWire | clientepython2.0.py:28-41 | when every frame is 80x60 RGB565, the viewer shows one image per frame, in order, each packing back to that frame, and runs until the stream ends |
| EndToEnd.ResyncWire | clientepython2.0.py:30-33 | an even-length prefix with no aligned `FR` before the camera's stream leaves the frames unchanged |
| EndToEnd.OddShiftLosesFrames | clientepython2.0.py:30-33 | the two-byte skip does not realign a one-byte shift: for one stream, a single stray byte before a message loses that frame |
| EndToEnd.SerialLineReachesReceiver | main_Carro_Motores.py:47-51 | a line sent by `tx_uart` with no surrounding whitespace and no embedded `\n`, so that one `readline()` returns all of it, is dispatched by the receiver exactly as sent |
| EndToEnd.HandleGet | main_Carro_Camara.py:156-161 | `GET <path> HTTP/1.1` whose headers end is answered by routing `<path>` |
| EndToEnd.MoveRoute | main_Carro_Camara.py:163-166 | `/move?cmd=<x>` sends `MOVE:<x>` and answers `OK` |
| EndToEnd.MoveRequest | main_Carro_Camara.py:155-166 | `GET /move?cmd=<x>` answers `OK` and sends `MOVE:<x>` |
| EndToEnd.MoveReceived | main_Carro_Motores.py:26-28 | for `x` with no embedded `\n`, the receiver dispatches `MOVE:<x>` as sent, and drives forward exactly when `x` is `W` |
| EndToEnd.ArmRequest | main_Carro_Camara.py:168-173 | `GET /arm?b=<b>&h=<h>&c=<c>` answers `OK` and sends `ARM:<b>,<h>,<c>`, whatever the values |
| EndToEnd.ArmReceived | main_Carro_Motores.py:34-37 | for values with no embedded `\n`, the receiver moves the arm to the parsed values of `ARM:<b>,<h>,<c>` in order, or makes no call when one does not parse |

## Left out

- Wi-Fi bring-up and the watchdog (`main_Carro_Camara.py:21-43`, `201-206`) are left out. They poll and sleep over the hardware network driver.
- LED blinking, the UART, I2C and PWM setup, and the OV7670 configuration are left out. They are calls into hardware drivers. `cam.capture` is modelled only as overwriting the whole buffer with a picture that is passed in.
- The uasyncio servers, `drain`, the 20 ms pacing sleep and task interleaving are left out.
  - Each handler is modelled as one sequential run.
  - The stream loop runs over the finite list of pictures taken while the client stays connected.
  - A failed socket write is modelled as that list ending.
- The `WEB_PAGE` HTML and JavaScript, including its client-side angle limits, are left out. The page is a parameter of `HttpClient`.
- `MotorController` and `BrazoRobotico` are not part of this model. Their calls are recorded as `Action` values.
- Python's `float()` is a parameter `num: string -> Option<real>`, where `None` is a ValueError. IEEE rounding and the exact accepted syntax are not modelled. `DigitsValue` is a digits-only stand-in used for the examples.
- UTF-8 decoding is modelled for ASCII only. On the receiver, any byte of 0x80 or more counts as a decoding failure, which the loop catches. The request line is taken as already-decoded text.
- The end-to-end lemmas do not cover serial lines with whitespace at either end or an embedded newline. The receiver's `strip()` would change the first (a `/move` token ending in a tab arrives without it). A request line without an HTTP version leaves `\r\n` in the path, so its serial text would span two `readline()` results.
- `uart.readline()` splitting bytes into lines, and its timeouts, are not modelled. The read loop receives the sequence of reads, where an empty read stands for a timeout.
- The warning `print`s are left out. They do not change what is sent or called.
- `Uart.sent` holds the written text, not its bytes. `EndToEnd.SerialLineReachesReceiver` links the two through `Encode`.
- VideoStream.U16Be: follows CPython, where `to_bytes` raises OverflowError for 65536 or more. The model does not cover a MicroPython build that would truncate instead.
- The viewer's `cv2.resize`, `cv2.imshow`, the `q` key, `np.frombuffer` vectorisation, and socket connect and close are left out. The conversion is modelled pixel by pixel.
- FrameDecoder.Connection.Recv: its body always returns as much as is available, up to `max`. The network's own chunking is not modelled. `RecvExact` relies only on `Recv`'s contract, which allows any non-empty prefix.
