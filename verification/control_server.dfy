/**
  The transmitter's control endpoint (`http_client`) and its serial sender
  (`tx_uart`): a request line becomes at most one command line on the serial
  link and one HTTP response.
 */
module ControlServer {
  import opened Wrappers
  import opened PyStr

  /** The response body: the control page, or a plain-text `OK` / `ERR`. */
  datatype Reply = Page | Plain(body: string)

  /** What one connection to the handler comes to. */
  datatype Outcome =
    | Silent                                    // empty request line: return without answering
    | Aborted                                   // the request line has no space: IndexError ends the handler
    | Stalled                                   // the headers end without a blank line: the handler never finishes
    | Replied(serial: Option<string>, reply: Reply)  // the command sent on the serial link (if any) and the reply

  /** `req_line.split(' ')[1]`; `None` where Python raises IndexError. */
  function PathOf(reqLine: string): (path: Option<string>)
    ensures path.None? <==> ' ' !in reqLine
    ensures path.Some? ==> ' ' !in path.value
  {
    var parts := Split(reqLine, ' ');
    assert |parts| >= 2 <==> ' ' in reqLine by { SplitMany(reqLine, ' '); }
    if |parts| < 2 then None else Some(parts[1])
  }

  /** Where `PathOf` finds the path: the text after the first space, up to the next space or the end. */
  lemma PathText(reqLine: string)
    requires ' ' in reqLine
    ensures var after := AfterFirst(reqLine, ' ');
      && PathOf(reqLine).Some? && after.Some?
      && PathOf(reqLine).value <= after.value
      && (|PathOf(reqLine).value| == |after.value| || after.value[|PathOf(reqLine).value|] == ' ')
  {
    SplitSecondAfter(reqLine, ' ');
  }

  /** `kv.split('=')[0]` and `kv.split('=')[1]`; `None` where Python raises IndexError (no `=`). */
  function KeyValue(kv: string): (r: Option<(string, string)>)
    ensures r.None? <==> '=' !in kv
    ensures r.Some? ==> '=' !in r.value.0 && '=' !in r.value.1
  {
    var parts := Split(kv, '=');
    assert |parts| >= 2 <==> '=' in kv by { SplitMany(kv, '='); }
    if |parts| < 2 then None else Some((parts[0], parts[1]))
  }

  /** Where `KeyValue` finds its pair: the key up to the first `=`, the value from there up to the next `=` or the end. */
  lemma KeyValueText(kv: string)
    requires '=' in kv
    ensures var (k, v) := KeyValue(kv).value;
      && k + "=" + v <= kv
      && (|kv| == |k| + 1 + |v| || kv[|k| + 1 + |v|] == '=')
  {
    SplitSecond(kv, '=');
  }

  /** The key of piece `kvs[i]`, which has an `=`. */
  function KeyOf(kvs: seq<string>, i: int): string
    requires 0 <= i < |kvs| && '=' in kvs[i]
  {
    KeyValue(kvs[i]).value.0
  }

  /** Piece `i` of `kvs` sets key `k` to `v`, and no later piece sets `k`. */
  predicate LastSetting(kvs: seq<string>, i: int, k: string, v: string)
  {
    && 0 <= i < |kvs|
    && KeyValue(kvs[i]) == Some((k, v))
    && forall j :: i < j < |kvs| && '=' in kvs[j] ==> KeyOf(kvs, j) != k
  }

  /**
    The dict comprehension `{kv.split('=')[0]: kv.split('=')[1] for kv in kvs}`:
    `None` as soon as one piece has no `=`; otherwise each key maps to the value
    of its LAST piece, so a later duplicate overrides an earlier one.
   */
  function BuildMap(kvs: seq<string>): (r: Option<map<string, string>>)
    ensures r.None? <==> exists i :: 0 <= i < |kvs| && '=' !in kvs[i]
    ensures r.Some? ==> forall i :: 0 <= i < |kvs| ==> KeyOf(kvs, i) in r.value
    ensures r.Some? ==> forall k :: k in r.value ==> exists i :: LastSetting(kvs, i, k, r.value[k])
    decreases |kvs|
  {
    if kvs == [] then Some(map[])
    else
      var n := |kvs| - 1;
      var init := kvs[..n];
      assert forall i :: 0 <= i < n ==> init[i] == kvs[i];
      match (BuildMap(init), KeyValue(kvs[n]))
      case (None, _) =>
        ghost var i :| 0 <= i < n && '=' !in init[i];
        assert '=' !in kvs[i];
        None
      case (_, None) =>
        assert '=' !in kvs[n];
        None
      case (Some(m), Some((k, v))) =>
        assert forall i :: 0 <= i < |kvs| ==> '=' in kvs[i];
        SettingAppended(kvs, init, m, k, v, m[k := v]);
        Some(m[k := v])
  }

  /** The step of `BuildMap` for one more piece `k=v`: its key joins, and it becomes the last setting of `k`. */
  lemma SettingAppended(kvs: seq<string>, init: seq<string>, m: map<string, string>, k: string, v: string,
                         m': map<string, string>)
    requires |kvs| >= 1 && init == kvs[..|kvs| - 1] && KeyValue(kvs[|kvs| - 1]) == Some((k, v))
    requires forall i :: 0 <= i < |init| ==> '=' in init[i] && KeyOf(init, i) in m
    requires forall key :: key in m ==> exists i :: LastSetting(init, i, key, m[key])
    requires m' == m[k := v]
    ensures forall i :: 0 <= i < |kvs| ==> KeyOf(kvs, i) in m'
    ensures forall key :: key in m' ==> exists i :: LastSetting(kvs, i, key, m'[key])
  {
    var n := |kvs| - 1;
    forall i | 0 <= i < |kvs| ensures KeyOf(kvs, i) in m' {
      if i < n { assert KeyOf(kvs, i) == KeyOf(init, i); }
    }
    forall key | key in m' ensures exists i :: LastSetting(kvs, i, key, m'[key]) {
      if key == k {
        assert LastSetting(kvs, n, key, m'[key]);
      } else {
        var i :| LastSetting(init, i, key, m[key]);
        forall j | i < j < |kvs| && '=' in kvs[j] ensures KeyOf(kvs, j) != key {
          if j < n { assert KeyOf(kvs, j) == KeyOf(init, j); }
        }
        assert LastSetting(kvs, i, key, m'[key]);
      }
    }
  }

  /** `path.split('?', 1)[1]` parsed as the query dict; `None` where the source raises. */
  function ParseQuery(path: string): Option<map<string, string>>
  {
    match AfterFirst(path, '?')
    case None => None
    case Some(qs) => BuildMap(Split(qs, '&'))
  }

  /** The serial command for an `/arm` path: `ARM:<b>,<h>,<c>` from the raw values; `None` where the handler answers `ERR`. */
  function ArmLine(path: string): Option<string>
  {
    match ParseQuery(path)
    case None => None
    case Some(p) =>
      if "b" in p && "h" in p && "c" in p then Some("ARM:" + p["b"] + "," + p["h"] + "," + p["c"])
      else None
  }

  /**
    Routing on the path prefix, `/move` first, then `/arm`, then the page:
    the serial command sent (if any) and the reply.
   */
  function Route(path: string): (r: (Option<string>, Reply))
    ensures r.1 == Page <==> !("/move" <= path) && !("/arm" <= path)
    ensures r.1 == Page ==> r.0.None?
    ensures r.1 != Page ==> (r.0.Some? <==> r.1 == Plain("OK")) && (r.0.None? <==> r.1 == Plain("ERR"))
    ensures "/move" <= path ==> r.0 == Some("MOVE:" + AfterLast(path, "cmd="))
  {
    if "/move" <= path then (Some("MOVE:" + AfterLast(path, "cmd=")), Plain("OK"))
    else if "/arm" <= path then
      match ArmLine(path)
      case None => (None, Plain("ERR"))
      case Some(line) => (Some(line), Plain("OK"))
    else (None, Page)
  }

  /** The handler's whole behaviour for one request line and the lines that follow it. */
  function Handle(reqLine: string, following: seq<string>): (o: Outcome)
    ensures o == Silent <==> reqLine == ""
    ensures o == Aborted <==> reqLine != "" && ' ' !in reqLine
    ensures o == Stalled <==> reqLine != "" && ' ' in reqLine && "\r\n" !in following
    ensures o.Replied? ==> PathOf(reqLine).Some? && (o.serial, o.reply) == Route(PathOf(reqLine).value)
  {
    if reqLine == "" then Silent
    else match PathOf(reqLine)
      case None => Aborted
      case Some(path) =>
        if "\r\n" !in following then Stalled
        else Replied(Route(path).0, Route(path).1)
  }

  /** What the handler writes on the serial link: the command and one newline, or nothing. */
  function SerialOut(o: Outcome): (text: string)
    ensures text != [] <==> o.Replied? && o.serial.Some?
    ensures text != [] ==> text[|text| - 1] == '\n'
  {
    if o.Replied? && o.serial.Some? then o.serial.value + "\n" else ""
  }

  /** The bytes written back on the connection; `page` stands for the control page's HTML. */
  function ResponseText(reply: Reply, page: string): (text: string)
    ensures "HTTP/1.1 200 OK\r\n" <= text
    ensures reply == Page ==> "HTTP/1.1 200 OK\r\nContent-Type:text/html\r\n\r\n" <= text
    ensures reply.Plain? ==> "HTTP/1.1 200 OK\r\nContent-Type:text/plain\r\n\r\n" <= text
    ensures reply == Page ==> |page| <= |text| && text[|text| - |page|..] == page
    ensures reply.Plain? ==> |reply.body| <= |text| && text[|text| - |reply.body|..] == reply.body
  {
    match reply
    case Page => "HTTP/1.1 200 OK\r\nContent-Type:text/html\r\n\r\n" + page
    case Plain(body) => "HTTP/1.1 200 OK\r\nContent-Type:text/plain\r\n\r\n" + body
  }

  /** The transmitter's serial port: everything written to it so far. */
  class Uart {
    var sent: string

    constructor ()
      ensures sent == ""
    {
      sent := "";
    }

    /** `tx_uart(msg)`: writes the message and one newline. */
    method TxUart(msg: string)
      modifies this
      ensures sent == old(sent) + (msg + "\n")
    {
      sent := sent + (msg + "\n");
    }
  }

  /**
    The header-discarding loop: reads lines until one is exactly `\r\n`.
    `found` is false when the lines run out first (the source then reads
    empty lines forever); `used` is how many lines were consumed.
   */
  method SkipHeaders(lines: seq<string>) returns (found: bool, used: nat)
    ensures found <==> "\r\n" in lines
    ensures found ==> 0 < used <= |lines| && lines[used - 1] == "\r\n"
    ensures found ==> forall i :: 0 <= i < used - 1 ==> lines[i] != "\r\n"
    ensures !found ==> used == |lines|
  {
    used := 0;
    found := false;
    while used < |lines| && !found
      invariant used <= |lines|
      invariant found ==> 0 < used && lines[used - 1] == "\r\n"
      invariant forall i :: 0 <= i < (if found then used - 1 else used) ==> lines[i] != "\r\n"
    {
      found := lines[used] == "\r\n";
      used := used + 1;
    }
  }

  /**
    The routing part of `http_client`: `/move` sends `MOVE:<cmd>`, `/arm`
    sends `ARM:<b>,<h>,<c>` or answers `ERR`, anything else gets the page.
   */
  method Forward(uart: Uart, path: string) returns (serial: Option<string>, reply: Reply)
    modifies uart
    ensures (serial, reply) == Route(path)
    ensures uart.sent == old(uart.sent) + (if serial.Some? then serial.value + "\n" else "")
  {
    if "/move" <= path {
      var cmd := AfterLast(path, "cmd=");
      uart.TxUart("MOVE:" + cmd);
      serial, reply := Some("MOVE:" + cmd), Plain("OK");
    } else if "/arm" <= path {
      match ArmLine(path)
      case None =>
        serial, reply := None, Plain("ERR");
      case Some(line) =>
        uart.TxUart(line);
        serial, reply := Some(line), Plain("OK");
    } else {
      serial, reply := None, Page;
    }
  }

  /**
    `http_client`: reads the request line, takes the path, skips the headers,
    routes, sends at most one serial command, and answers.
   */
  method HttpClient(uart: Uart, reqLine: string, following: seq<string>, page: string)
    returns (outcome: Outcome, response: string)
    modifies uart
    ensures outcome == Handle(reqLine, following)
    ensures uart.sent == old(uart.sent) + SerialOut(outcome)
    ensures outcome.Replied? ==> response == ResponseText(outcome.reply, page)
    ensures !outcome.Replied? ==> response == ""
  {
    response := "";
    if reqLine == "" {
      return Silent, response;
    }
    var parts := Split(reqLine, ' ');
    if |parts| < 2 {
      return Aborted, response;
    }
    var path := parts[1];
    assert PathOf(reqLine) == Some(path);
    var found, _ := SkipHeaders(following);
    if !found {
      return Stalled, response;
    }
    var serial, reply := Forward(uart, path);
    outcome := Replied(serial, reply);
    response := ResponseText(reply, page);
  }

  // ---------------------------------------------------------------------------
  // Request routing: from the HTTP path to the serial line

  /** The path is the second space-separated token: `GET <path> HTTP/1.1\r\n` yields `<path>`. */
  lemma {:induction false} PathOfRequest(verb: string, path: string, rest: string)
    requires ' ' !in verb && ' ' !in path
    ensures PathOf(verb + " " + path + " " + rest) == Some(path)
  {
    var tail := Split(rest, ' ');
    JoinSplit(rest, ' ');
    JoinCons(path, tail, ' ');
    JoinCons(verb, [path] + tail, ' ');
    var pieces := [verb] + ([path] + tail);
    assert verb + [' '] + (path + [' '] + rest) == verb + " " + path + " " + rest;
    SplitJoin(pieces, ' ');
  }

  /** `"cmd="` cannot overlap itself. */
  lemma CmdNoSelfOverlap()
    ensures NoSelfOverlap("cmd=")
  {
    var pat := "cmd=";
    forall d | 0 < d < |pat| ensures pat[d..] != pat[..|pat| - d] {
      assert pat[d..][0] != pat[0];
    }
  }

  /**
    Any `/move` path ending in `cmd=<x>`, with no later `cmd=`, sends exactly
    `MOVE:<x>`, whatever `x` is (it is not validated), and answers `OK`.
   */
  lemma MoveForwardsToken(rest: string, x: string)
    requires FindFrom(x, "cmd=", 0).None?
    ensures Route("/move" + rest + "cmd=" + x) == (Some("MOVE:" + x), Plain("OK"))
  {
    CmdNoSelfOverlap();
    AfterLastOfSuffix("/move" + rest, "cmd=", x);
  }

  /** A `/move` path without `cmd=` forwards the whole path. */
  lemma MoveWithoutCmd(path: string)
    requires "/move" <= path && FindFrom(path, "cmd=", 0).None?
    ensures Route(path) == (Some("MOVE:" + path), Plain("OK"))
  {
  }

  /** The query string has key `k` in one of its pieces. */
  predicate HasKey(kvs: seq<string>, k: string)
  {
    exists i :: 0 <= i < |kvs| && '=' in kvs[i] && KeyOf(kvs, i) == k
  }

  /**
    An `/arm` request answers `ERR` and sends nothing exactly when the path has
    no `?`, some `&`-piece of the query lacks `=`, or one of `b`, `h`, `c` is missing.
   */
  lemma ArmRejects(path: string)
    requires "/arm" <= path
    ensures Route(path) == (None, Plain("ERR")) <==>
      match AfterFirst(path, '?')
      case None => true
      case Some(qs) =>
        var kvs := Split(qs, '&');
        (exists i :: 0 <= i < |kvs| && '=' !in kvs[i])
        || !HasKey(kvs, "b") || !HasKey(kvs, "h") || !HasKey(kvs, "c")
  {
    RouteArm(path);
    match AfterFirst(path, '?')
    case None =>
    case Some(qs) =>
      var kvs := Split(qs, '&');
      match BuildMap(kvs)
      case None =>
      case Some(m) =>
        forall k | k in ["b", "h", "c"] ensures k in m <==> HasKey(kvs, k) {
          if k in m {
            var i :| LastSetting(kvs, i, k, m[k]);
            assert '=' in kvs[i] && KeyOf(kvs, i) == k;
          }
        }
  }

  /** The key-value pieces of a query naming `b`, `h` and `c`, in that order. */
  lemma {:induction false} ArmQuerySplits(b: string, h: string, c: string)
    requires '&' !in b && '=' !in b && '&' !in h && '=' !in h && '&' !in c && '=' !in c
    ensures Split("b=" + b + "&h=" + h + "&c=" + c, '&') == ["b=" + b, "h=" + h, "c=" + c]
    ensures KeyValue("b=" + b) == Some(("b", b))
    ensures KeyValue("h=" + h) == Some(("h", h))
    ensures KeyValue("c=" + c) == Some(("c", c))
  {
    var kvs := ["b=" + b, "h=" + h, "c=" + c];
    assert Join(kvs, '&') == "b=" + b + "&h=" + h + "&c=" + c by {
      assert Join(kvs[2..], '&') == "c=" + c;
      assert Join(kvs[1..], '&') == "h=" + h + "&" + "c=" + c;
      assert "&" + "c=" + c == "&c=" + c;
      assert "&" + "h=" + h == "&h=" + h;
    }
    forall i | 0 <= i < 3 ensures '&' !in kvs[i] { }
    SplitJoin(kvs, '&');
    KeyValueOf("b", b);
    assert "b" + "=" + b == "b=" + b;
    KeyValueOf("h", h);
    assert "h" + "=" + h == "h=" + h;
    KeyValueOf("c", c);
    assert "c" + "=" + c == "c=" + c;
  }

  /** A piece `k=v` with no other `=` has key `k` and value `v`. */
  lemma KeyValueOf(k: string, v: string)
    requires '=' !in k && '=' !in v
    ensures KeyValue(k + "=" + v) == Some((k, v))
  {
    assert Join([k, v], '=') == k + "=" + v;
    SplitJoin([k, v], '=');
  }

  /** The dict holds, for every key, the value of the last piece that sets it. */
  lemma BuildMapLast(kvs: seq<string>, i: int, k: string, v: string)
    requires BuildMap(kvs).Some? && LastSetting(kvs, i, k, v)
    ensures k in BuildMap(kvs).value && BuildMap(kvs).value[k] == v
  {
    var m := BuildMap(kvs).value;
    assert KeyOf(kvs, i) == k;
    var j :| LastSetting(kvs, j, k, m[k]);
    assert KeyOf(kvs, j) == k;
  }

  /** Pieces setting `b`, `h` and `c` (and possibly `b` again) build a dict holding the last value of each. */
  lemma SettingsMap(kvs: seq<string>, b: string, h: string, c: string)
    requires |kvs| == 3 || |kvs| == 4
    requires KeyValue(kvs[1]) == Some(("h", h)) && KeyValue(kvs[2]) == Some(("c", c))
    requires |kvs| == 3 ==> KeyValue(kvs[0]) == Some(("b", b))
    requires |kvs| == 4 ==> KeyValue(kvs[0]).Some? && KeyValue(kvs[0]).value.0 == "b" && KeyValue(kvs[3]) == Some(("b", b))
    ensures var r := BuildMap(kvs);
      r.Some? && "b" in r.value && "h" in r.value && "c" in r.value
      && r.value["b"] == b && r.value["h"] == h && r.value["c"] == c
  {
    var bi := if |kvs| == 3 then 0 else 3;
    forall i | 0 <= i < |kvs| ensures KeyValue(kvs[i]).Some? {
      assert i == 0 || i == 1 || i == 2 || i == 3;
    }
    BuildMapSome(kvs);
    SettingsLast(kvs, b, h, c);
    BuildMapLast(kvs, bi, "b", b);
    BuildMapLast(kvs, 1, "h", h);
    BuildMapLast(kvs, 2, "c", c);
  }

  /** The dict is built when every piece parses as a key and a value. */
  lemma BuildMapSome(kvs: seq<string>)
    requires forall i :: 0 <= i < |kvs| ==> KeyValue(kvs[i]).Some?
    ensures BuildMap(kvs).Some?
  {
  }

  /** In those pieces the last settings of `b`, `h` and `c` are the ones named. */
  lemma SettingsLast(kvs: seq<string>, b: string, h: string, c: string)
    requires |kvs| == 3 || |kvs| == 4
    requires KeyValue(kvs[1]) == Some(("h", h)) && KeyValue(kvs[2]) == Some(("c", c))
    requires |kvs| == 3 ==> KeyValue(kvs[0]) == Some(("b", b))
    requires |kvs| == 4 ==> KeyValue(kvs[0]).Some? && KeyValue(kvs[0]).value.0 == "b" && KeyValue(kvs[3]) == Some(("b", b))
    ensures LastSetting(kvs, if |kvs| == 3 then 0 else 3, "b", b)
    ensures LastSetting(kvs, 1, "h", h) && LastSetting(kvs, 2, "c", c)
  {
    assert KeyOf(kvs, 1) == "h" && KeyOf(kvs, 2) == "c";
    forall j | 2 < j < |kvs| ensures KeyOf(kvs, j) == "b" { assert j == 3; }
  }


  /** The query `b=<b>&h=<h>&c=<c>` parses to the dict `{b: <b>, h: <h>, c: <c>}`. */
  lemma ArmQueryMap(b: string, h: string, c: string)
    requires '&' !in b && '=' !in b && '&' !in h && '=' !in h && '&' !in c && '=' !in c
    ensures var r := BuildMap(Split("b=" + b + "&h=" + h + "&c=" + c, '&'));
      r.Some? && "b" in r.value && "h" in r.value && "c" in r.value
      && r.value["b"] == b && r.value["h"] == h && r.value["c"] == c
  {
    ArmQuerySplits(b, h, c);
    var kvs := ["b=" + b, "h=" + h, "c=" + c];
    assert kvs[0] == "b=" + b && kvs[1] == "h=" + h && kvs[2] == "c=" + c;
    SettingsMap(kvs, b, h, c);
  }

  /** The text after the first `?` of `/arm?<qs>` is `<qs>`, so the query parsed is that of `<qs>`. */
  lemma ArmQueryText(path: string, qs: string)
    requires path == "/arm?" + qs
    ensures "/arm" <= path
    ensures AfterFirst(path, '?') == Some(qs)
    ensures ParseQuery(path) == BuildMap(Split(qs, '&'))
  {
    assert path[..4] == "/arm";
    AfterFirstAt(path, '?', 4);
    assert path[5..] == qs;
  }

  /** How `Route` answers an `/arm` path whose query parses to a dict holding `b`, `h` and `c`. */
  lemma ArmRoute(path: string, m: map<string, string>)
    requires "/arm" <= path && ParseQuery(path) == Some(m) && "b" in m && "h" in m && "c" in m
    ensures Route(path) == (Some("ARM:" + m["b"] + "," + m["h"] + "," + m["c"]), Plain("OK"))
  {
    assert ArmLine(path) == Some("ARM:" + m["b"] + "," + m["h"] + "," + m["c"]);
    RouteArm(path);
  }

  /** `/arm?<qs>` where the pieces of `qs` build a dict holding `b`, `h` and `c`: `Route` sends their values. */
  lemma ArmQueryRoute(path: string, qs: string, m: map<string, string>)
    requires path == "/arm?" + qs
    requires BuildMap(Split(qs, '&')) == Some(m) && "b" in m && "h" in m && "c" in m
    ensures Route(path) == (Some("ARM:" + m["b"] + "," + m["h"] + "," + m["c"]), Plain("OK"))
  {
    ArmQueryText(path, qs);
    ArmRoute(path, m);
  }

  /** An `/arm` path is never taken for `/move`: `Route` sends exactly its `ArmLine`. */
  lemma RouteArm(path: string)
    requires "/arm" <= path
    ensures Route(path) == (ArmLine(path), if ArmLine(path).Some? then Plain("OK") else Plain("ERR"))
  {
    assert !("/move" <= path) by { assert path[1] == 'a'; }
  }

  /**
    `/arm?b=<b>&h=<h>&c=<c>` sends exactly `ARM:<b>,<h>,<c>` with the raw value
    texts, numeric or not, in that order, and answers `OK`.
   */
  lemma ArmForwardsRawValues(b: string, h: string, c: string)
    requires '&' !in b && '=' !in b && '&' !in h && '=' !in h && '&' !in c && '=' !in c
    ensures Route("/arm?b=" + b + "&h=" + h + "&c=" + c) == (Some("ARM:" + b + "," + h + "," + c), Plain("OK"))
  {
    var qs := "b=" + b + "&h=" + h + "&c=" + c;
    var path := "/arm?b=" + b + "&h=" + h + "&c=" + c;
    assert path == "/arm?" + qs;
    ArmQueryMap(b, h, c);
    ArmQueryRoute(path, qs, BuildMap(Split(qs, '&')).value);
  }

  /** A later `b=` overrides an earlier one. */
  lemma ArmLaterKeyWins(b0: string, b: string, h: string, c: string)
    requires '&' !in b0 && '=' !in b0
    requires '&' !in b && '=' !in b && '&' !in h && '=' !in h && '&' !in c && '=' !in c
    ensures Route("/arm?b=" + b0 + "&h=" + h + "&c=" + c + "&b=" + b) == (Some("ARM:" + b + "," + h + "," + c), Plain("OK"))
  {
    var qs := "b=" + b0 + "&h=" + h + "&c=" + c + "&b=" + b;
    var path := "/arm?b=" + b0 + "&h=" + h + "&c=" + c + "&b=" + b;
    assert path == "/arm?" + qs;
    LaterKeySplits(b0, b, h, c);
    LaterKeyMap(b0, b, h, c);
    ArmQueryRoute(path, qs, BuildMap(Split(qs, '&')).value);
  }

  /** The pieces `b=<b0>`, `h=<h>`, `c=<c>`, `b=<b>` build the dict `{b: <b>, h: <h>, c: <c>}`. */
  lemma LaterKeyMap(b0: string, b: string, h: string, c: string)
    requires '&' !in b0 && '=' !in b0
    requires '&' !in b && '=' !in b && '&' !in h && '=' !in h && '&' !in c && '=' !in c
    ensures var r := BuildMap(["b=" + b0, "h=" + h, "c=" + c, "b=" + b]);
      r.Some? && "b" in r.value && "h" in r.value && "c" in r.value
      && r.value["b"] == b && r.value["h"] == h && r.value["c"] == c
  {
    var kvs := ["b=" + b0, "h=" + h, "c=" + c, "b=" + b];
    assert kvs[0] == "b=" + b0 && kvs[1] == "h=" + h && kvs[2] == "c=" + c && kvs[3] == "b=" + b;
    ArmQuerySplits(b0, h, c);
    ArmQuerySplits(b, h, c);
    SettingsMap(kvs, b, h, c);
  }

  /** The four pieces of `b=<b0>&h=<h>&c=<c>&b=<b>`. */
  lemma {:induction false} LaterKeySplits(b0: string, b: string, h: string, c: string)
    requires '&' !in b0 && '&' !in b && '&' !in h && '&' !in c
    ensures Split("b=" + b0 + "&h=" + h + "&c=" + c + "&b=" + b, '&') == ["b=" + b0, "h=" + h, "c=" + c, "b=" + b]
  {
    var kvs := ["b=" + b0, "h=" + h, "c=" + c, "b=" + b];
    assert Join(kvs, '&') == "b=" + b0 + "&h=" + h + "&c=" + c + "&b=" + b by {
      assert Join(kvs[3..], '&') == "b=" + b;
      assert Join(kvs[2..], '&') == "c=" + c + "&" + "b=" + b;
      assert Join(kvs[1..], '&') == "h=" + h + "&" + "c=" + c + "&" + "b=" + b;
      assert "&" + "b=" + b == "&b=" + b;
      assert "&" + "c=" + c == "&c=" + c;
      assert "&" + "h=" + h == "&h=" + h;
    }
    forall i | 0 <= i < 4 ensures '&' !in kvs[i] { }
    SplitJoin(kvs, '&');
  }
}
