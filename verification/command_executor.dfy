/**
  The receiver board (`ejecutar_linea` and its `uart.readline()` loop): each
  line arriving on the serial link becomes at most one call on the motor
  controller or the robot arm.
 */
module CommandExecutor {
  import opened Wrappers
  import opened Bytes
  import opened PyStr

  /** A call on the actuators, with the arguments the receiver passes. */
  datatype Action =
    | Forward(speed: int)                    // mc.mover_adelante(5)
    | Backward(speed: int)                   // mc.mover_atras(5)
    | TurnLeft(speed: int)                   // mc.girar_izquierda(30)
    | TurnRight(speed: int)                  // mc.girar_derecha(30)
    | MoveArm(angles: seq<real>, seconds: real)  // brazo.mover_brazo([b, h, c], tiempo_segundos=0.2)

  const DriveSpeed := 5
  const TurnSpeed := 30
  const ArmSeconds: real := 0.2

  /** `float(field)` for every field, in order; `None` as soon as one of them raises ValueError. */
  function ParseAll(fields: seq<string>, num: string -> Option<real>): (r: Option<seq<real>>)
    ensures r.None? <==> exists i :: 0 <= i < |fields| && num(fields[i]).None?
    ensures r.Some? ==> |r.value| == |fields| && forall i :: 0 <= i < |fields| ==> num(fields[i]) == Some(r.value[i])
  {
    if fields == [] then Some([])
    else
      match (num(fields[0]), ParseAll(fields[1..], num))
      case (None, _) => None
      case (_, None) =>
        assert forall i :: 1 <= i < |fields| ==> fields[1..][i - 1] == fields[i];
        None
      case (Some(x), Some(xs)) => Some([x] + xs)
  }

  /**
    `ejecutar_linea(line)`: the actuator call a stripped line makes, if any.
    `num` stands for Python's `float` on one text field (`None` where it
    raises ValueError). Lines that only print a warning give `None`.
   */
  function Dispatch(line: string, num: string -> Option<real>): (r: Option<Action>)
    ensures r == Some(Forward(DriveSpeed)) <==> line == "MOVE:W"
    ensures r == Some(Backward(DriveSpeed)) <==> line == "MOVE:S"
    ensures r == Some(TurnLeft(TurnSpeed)) <==> line == "MOVE:A"
    ensures r == Some(TurnRight(TurnSpeed)) <==> line == "MOVE:D"
    ensures r.Some? && r.value.MoveArm? <==>
      "ARM:" <= line && |Split(line[4..], ',')| == 3 && forall i :: 0 <= i < 3 ==> num(Split(line[4..], ',')[i]).Some?
    ensures r.Some? && r.value.MoveArm? ==>
      r.value.seconds == ArmSeconds && |r.value.angles| == 3
      && forall i :: 0 <= i < 3 ==> num(Split(line[4..], ',')[i]) == Some(r.value.angles[i])
    ensures r.Some? ==> r.value.MoveArm? || line in {"MOVE:W", "MOVE:S", "MOVE:A", "MOVE:D"}
  {
    if "MOVE:" <= line then
      var cmd := line[5..];
      assert line == "MOVE:" + cmd;
      assert !("ARM:" <= line) by { assert line[0] == 'M'; }
      if cmd == "W" then Some(Forward(DriveSpeed))
      else if cmd == "S" then Some(Backward(DriveSpeed))
      else if cmd == "A" then Some(TurnLeft(TurnSpeed))
      else if cmd == "D" then Some(TurnRight(TurnSpeed))
      else None
    else if "ARM:" <= line then
      var fields := Split(line[4..], ',');
      if |fields| != 3 then None
      else
        match ParseAll(fields, num)
        case None => None
        case Some(values) => Some(MoveArm(values, ArmSeconds))
    else None
  }

  /**
    One pass of the read loop on what `uart.readline()` returned: nothing for
    an empty read (timeout); nothing when decoding fails (the exception is
    caught); otherwise the call made by the stripped line.
   */
  function Step(raw: seq<byte>, num: string -> Option<real>): (r: Option<Action>)
    ensures raw == [] ==> r.None?
    ensures Decode(raw).None? ==> r.None?
    ensures raw != [] && Decode(raw).Some? ==> r == Dispatch(Strip(Decode(raw).value), num)
  {
    if raw == [] then None
    else
      match Decode(raw)
      case None => None
      case Some(text) => Dispatch(Strip(text), num)
  }

  /** Zero or one element. */
  function AsSeq(o: Option<Action>): seq<Action>
  {
    match o
    case None => []
    case Some(a) => [a]
  }

  /** The calls the receiver makes, in order, for the successive results of `uart.readline()`. */
  function Actions(received: seq<seq<byte>>, num: string -> Option<real>): seq<Action>
  {
    if received == [] then []
    else Actions(received[..|received| - 1], num) + AsSeq(Step(received[|received| - 1], num))
  }

  /** The top-level `while True` loop, run over the received that arrive. */
  method ReadLoop(received: seq<seq<byte>>, num: string -> Option<real>) returns (log: seq<Action>)
    ensures log == Actions(received, num)
  {
    log := [];
    var i := 0;
    while i < |received|
      invariant 0 <= i <= |received|
      invariant log == Actions(received[..i], num)
      decreases |received| - i
    {
      var raw := received[i];
      assert received[..i + 1][..i] == received[..i];
      assert Actions(received[..i + 1], num) == log + AsSeq(Step(raw, num));
      if raw == [] {
        i := i + 1;
        continue;
      }
      match Decode(raw) {
        case None =>
        case Some(text) =>
          var action := Dispatch(Strip(text), num);
          if action.Some? {
            log := log + [action.value];
          }
      }
      i := i + 1;
    }
    assert received[..i] == received;
  }

  /** Reads are handled one after the other: the calls for two stretches of input are those of each, in order. */
  lemma {:induction false} ActionsAppend(r1: seq<seq<byte>>, r2: seq<seq<byte>>, num: string -> Option<real>)
    ensures Actions(r1 + r2, num) == Actions(r1, num) + Actions(r2, num)
    decreases |r2|
  {
    if r2 == [] {
      assert r1 + r2 == r1;
    } else {
      var n := |r2| - 1;
      var step := AsSeq(Step(r2[n], num));
      assert (r1 + r2)[..|r1 + r2| - 1] == r1 + r2[..n];
      assert (r1 + r2)[|r1 + r2| - 1] == r2[n];
      assert Actions(r1 + r2, num) == Actions(r1 + r2[..n], num) + step;
      ActionsAppend(r1, r2[..n], num);
      assert Actions(r2, num) == Actions(r2[..n], num) + step;
      assert Actions(r1, num) + Actions(r2[..n], num) + step == Actions(r1, num) + (Actions(r2[..n], num) + step);
    }
  }

  /** Each read makes at most one call. */
  lemma {:induction false} ActionsAtMostOnePerRead(received: seq<seq<byte>>, num: string -> Option<real>)
    ensures |Actions(received, num)| <= |received|
    decreases |received|
  {
    if received != [] {
      ActionsAtMostOnePerRead(received[..|received| - 1], num);
    }
  }

  /** Inserting a read that makes no call between two stretches of input changes nothing. */
  lemma NoCallDropsOut(r1: seq<seq<byte>>, raw: seq<byte>, r2: seq<seq<byte>>, num: string -> Option<real>)
    requires Step(raw, num).None?
    ensures Actions(r1 + [raw] + r2, num) == Actions(r1 + r2, num)
  {
    var a := r1 + [raw];
    ActionsAppend(a, r2, num);
    assert a[..|a| - 1] == r1;
    assert Actions(a, num) == Actions(r1, num);
    ActionsAppend(r1, r2, num);
  }

  /** A timeout between two stretches of input changes nothing. */
  lemma EmptyReadSkipped(r1: seq<seq<byte>>, r2: seq<seq<byte>>, num: string -> Option<real>)
    ensures Actions(r1 + [[]] + r2, num) == Actions(r1 + r2, num)
  {
    NoCallDropsOut(r1, [], r2, num);
  }

  /** A line the receiver cannot decode is dropped and the loop goes on with the next one. */
  lemma UndecodableSkipped(r1: seq<seq<byte>>, raw: seq<byte>, r2: seq<seq<byte>>, num: string -> Option<real>)
    requires Decode(raw).None?
    ensures Actions(r1 + [raw] + r2, num) == Actions(r1 + r2, num)
  {
    NoCallDropsOut(r1, raw, r2, num);
  }

  /** A line that is sent as text plus `\n`, with any whitespace around it, is dispatched as the text itself. */
  lemma StepPaddedLine(w1: string, line: string, w2: string, num: string -> Option<real>)
    requires IsAscii(w1 + line + w2)
    requires forall k :: 0 <= k < |w1| ==> IsSpace(w1[k])
    requires forall k :: 0 <= k < |w2| ==> IsSpace(w2[k])
    requires line != [] ==> !IsSpace(line[0]) && !IsSpace(line[|line| - 1])
    requires w1 + line + w2 != []
    ensures Step(Encode(w1 + line + w2), num) == Dispatch(line, num)
  {
    DecodeEncode(w1 + line + w2);
    StripPadded(w1, line, w2);
  }

  /** Python `float` on plain decimal digits, enough for the worked examples. */
  function DigitsValue(s: string): (r: Option<real>)
    ensures r.Some? <==> s != [] && forall i :: 0 <= i < |s| ==> '0' <= s[i] <= '9'
    ensures r.Some? ==> r.value >= 0.0
    decreases |s|
  {
    if s == [] || !('0' <= s[|s| - 1] <= '9') then None
    else
      var d := (s[|s| - 1] as int - '0' as int) as real;
      if |s| == 1 then Some(d)
      else
        match DigitsValue(s[..|s| - 1])
        case None => None
        case Some(v) => Some(10.0 * v + d)
  }

  /** `MOVE:W` drives forward; an unknown move token such as `MOVE:Q` only prints a warning. */
  lemma MoveExamples(num: string -> Option<real>)
    ensures Dispatch("MOVE:W", num) == Some(Forward(5))
    ensures Dispatch("MOVE:Q", num).None?
    ensures Dispatch("MOVE:w", num).None?
    ensures Dispatch("move:W", num).None?
  {
  }

  /** The three fields after `ARM:` in `ARM:<x>,<y>,<z>`. */
  lemma {:induction false} ArmFields(x: string, y: string, z: string)
    requires ',' !in x && ',' !in y && ',' !in z
    ensures Split(("ARM:" + x + "," + y + "," + z)[4..], ',') == [x, y, z]
  {
    var line := "ARM:" + x + "," + y + "," + z;
    assert line[4..] == x + "," + y + "," + z;
    var pieces := [x, y, z];
    assert Join(pieces, ',') == x + "," + y + "," + z by {
      assert Join(pieces[2..], ',') == z;
      assert Join(pieces[1..], ',') == y + [','] + z;
      assert x + "," + y + "," + z == x + [','] + (y + [','] + z);
    }
    forall i | 0 <= i < 3 ensures ',' !in pieces[i] { }
    SplitJoin(pieces, ',');
  }

  /** What `ARM:<b>,<h>,<c>` makes the receiver do. */
  lemma ArmDispatch(b: string, h: string, c: string, num: string -> Option<real>)
    requires ',' !in b && ',' !in h && ',' !in c
    ensures Dispatch("ARM:" + b + "," + h + "," + c, num) ==
      if num(b).Some? && num(h).Some? && num(c).Some? then Some(MoveArm([num(b).value, num(h).value, num(c).value], 0.2))
      else None
  {
    var line := "ARM:" + b + "," + h + "," + c;
    ArmFields(b, h, c);
    assert !("MOVE:" <= line) by { assert line[0] == 'A'; }
    var r := Dispatch(line, num);
    if num(b).Some? && num(h).Some? && num(c).Some? {
      assert r.Some? && r.value.MoveArm?;
      assert r.value.angles == [num(b).value, num(h).value, num(c).value];
    } else {
      var fields := Split(line[4..], ',');
      assert fields == [b, h, c];
      assert num(fields[0]).None? || num(fields[1]).None? || num(fields[2]).None?;
      assert line !in {"MOVE:W", "MOVE:S", "MOVE:A", "MOVE:D"};
      assert r.None?;
    }
  }

  /** `ARM:10,20,30` moves the arm to 10, 20 and 30 degrees over 0.2 seconds. */
  lemma ArmNumericExample()
    ensures Dispatch("ARM:10,20,30", DigitsValue) == Some(MoveArm([10.0, 20.0, 30.0], 0.2))
  {
    var line := "ARM:" + "10" + "," + "20" + "," + "30";
    TensValues();
    ArmDispatch("10", "20", "30", DigitsValue);
    assert line == "ARM:10,20,30";
  }

  /** The values of `10`, `20` and `30`. */
  lemma TensValues()
    ensures DigitsValue("10") == Some(10.0) && DigitsValue("20") == Some(20.0) && DigitsValue("30") == Some(30.0)
  {
    assert "10"[..1] == "1" && "20"[..1] == "2" && "30"[..1] == "3";
  }

  /** A non-numeric field makes no call. */
  lemma ArmNonNumericExample()
    ensures Dispatch("ARM:abc,20,30", DigitsValue).None?
  {
    var line := "ARM:" + "abc" + "," + "20" + "," + "30";
    ArmDispatch("abc", "20", "30", DigitsValue);
    assert DigitsValue("abc").None? by { assert "abc"[2] == 'c'; }
    assert line == "ARM:abc,20,30";
  }

  /** Two fields make no call. */
  lemma ArmTwoFieldsExample(num: string -> Option<real>)
    ensures Dispatch("ARM:10,20", num).None?
  {
    assert "ARM:10,20"[4..] == "10,20";
    assert Join(["10", "20"], ',') == "10,20";
    SplitJoin(["10", "20"], ',');
  }
}
