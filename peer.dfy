/** How the client reads what the server actually sends. The server frames
    every message with a carriage return only and never sends the
    `RC1;`/`RC0;` header the client expects; these lemmas state what the
    client then makes of the server's replies, what it would make of them
    with the header in place, and what `getDeviceDetails` extracts from the
    server's `AED` reply. */
module Peer {
  import opened Text
  import opened Registry
  import Responses
  import Client
  import Session
  import Auth

  // ---------------------------------------------------------------------
  // The control header

  /** A payload that starts with a visible character is not blank, and
      `strip()` of it is neither empty nor a lone carriage return. */
  lemma NotBlank(p: string)
    requires p != [] && !IsSpace(p[0])
    ensures Strip(p) != [] && Strip(p) != "\r"
  {
    Client.StripBlank(p);
    assert IsSpace("\r"[0]);
  }

  /** With the header the client expects, the server's first login prompt
      is read as a request for the username. */
  lemma HeadedFirstPromptUnderstood(commandWanted: bool)
    ensures Client.React(Client.StripHeader(Client.Header(commandWanted) + Responses.Frame(Auth.USERNAME_REQUEST)))
      == Client.AskUsername(false)
  {
    var f := Responses.Frame(Auth.USERNAME_REQUEST);
    Client.HeaderRoundTrip(commandWanted, f);
    assert f == "username authentication request\r";
    NotBlank(f);
    assert Client.FixedReply(f) == Some(Client.AskUsername(false));
  }

  /** `p` starts like none of the fixed replies the client tests for: its
      first character differs from theirs, or, for the two retry prompts,
      its third character does. */
  predicate UnlikeFixedReplies(p: string)
    requires |p| >= 3
  {
    p[0] !in "upmbswc" && (p[0] == 'r' ==> p[2] != 't')
  }

  /** A text that starts like none of the fixed replies equals none of
      them; the replies are taken a few at a time. */
  lemma DiffersFromLoginPrompts(p: string)
    requires |p| >= 3 && UnlikeFixedReplies(p)
    ensures p != "username authentication request\r"
    ensures p != "retry username authentication request\r"
    ensures p != "password authentication request\r"
  {
    var l := "username authentication request\r";
    assert p != l by { assert l[0] == 'u'; }
    l := "retry username authentication request\r";
    assert p != l by { assert l[0] == 'r' && l[2] == 't'; }
    l := "password authentication request\r";
    assert p != l by { assert l[0] == 'p'; }
  }

  lemma DiffersFromLockoutReplies(p: string)
    requires |p| >= 3 && UnlikeFixedReplies(p)
    ensures p != "retry password authentication request\r"
    ensures p != "max failed attempts\r"
    ensures p != "blocked account\r"
  {
    var l := "retry password authentication request\r";
    assert p != l by { assert l[0] == 'r' && l[2] == 't'; }
    l := "max failed attempts\r";
    assert p != l by { assert l[0] == 'm'; }
    l := "blocked account\r";
    assert p != l by { assert l[0] == 'b'; }
  }

  lemma DiffersFromSessionReplies(p: string)
    requires |p| >= 3 && UnlikeFixedReplies(p)
    ensures p != "username already logged in\r"
    ensures p != "successfully disconnected\r"
    ensures p != "welcome\r"
    ensures p != "command request\r"
  {
    var l := "username already logged in\r";
    assert p != l by { assert l[0] == 'u'; }
    l := "successfully disconnected\r";
    assert p != l by { assert l[0] == 's'; }
    l := "welcome\r";
    assert p != l by { assert l[0] == 'w'; }
    l := "command request\r";
    assert p != l by { assert l[0] == 'c'; }
  }

  /** No fixed reply test succeeds on such a text. */
  lemma NoFixedReply(p: string)
    requires |p| >= 3 && UnlikeFixedReplies(p)
    ensures Client.FixedReply(p) == None
  {
    DiffersFromLoginPrompts(p);
    DiffersFromLockoutReplies(p);
    DiffersFromSessionReplies(p);
  }

  /** A payload that starts with a visible character that begins no
      response verb, and like none of the fixed replies, falls through to
      the "unknown server response" branch. */
  lemma Unrecognised(p: string)
    requires |p| >= 3 && !IsSpace(p[0]) && p[0] !in "AEDSU" && UnlikeFixedReplies(p)
    ensures Client.React(p) == Client.UnknownResponse
  {
    NotBlank(p);
    NoFixedReply(p);
    NoResponseVerb(p);
  }

  /** A payload whose first character begins no response verb starts no
      response block. */
  lemma NoResponseVerb(p: string)
    requires p != [] && p[0] !in "AEDSU"
    ensures Client.ResponseVerb(p, 0) == None
  {
  }

  /** Without the header, the client takes a fixed reply for something
      other than a command request, drops its first four characters and
      recognises none of what is left. */
  lemma UnheadedReplyMisread(m: string)
    requires |m| >= 7 && m[0] != 'R' && !IsSpace(m[4]) && m[4] !in "AEDSU" && UnlikeFixedReplies(m[4..])
    ensures !Client.CommandRequested(Responses.Frame(m))
    ensures Client.React(Client.StripHeader(Responses.Frame(m))) == Client.UnknownResponse
  {
    var p := Client.StripHeader(Responses.Frame(m));
    assert p == m[4..] + "\r";
    assert p[..3] == m[4..][..3];
    Unrecognised(p);
    assert Client.COMMAND_HEADER[0] == 'R';
  }

  /** In particular the server's first prompt is not understood, so the
      client never answers it. */
  lemma FirstPromptMisread()
    ensures !Client.CommandRequested(Responses.Frame(Auth.USERNAME_REQUEST))
    ensures Client.React(Client.StripHeader(Responses.Frame(Auth.USERNAME_REQUEST))) == Client.UnknownResponse
  {
    var m := Auth.USERNAME_REQUEST;
    assert m[0] == 'u' && m[4] == 'n';
    UnheadedReplyMisread(m);
  }

  /** Without the header, a command's response block (`"V resp: \n..."`)
      loses its verb and is not recognised either. */
  lemma UnheadedBlockMisread(verb: string, block: string)
    requires verb in Client.RESPONSE_VERBS && Client.HasPrefix(block, Client.ResponseHeader(verb))
    ensures !Client.CommandRequested(Responses.Frame(block))
    ensures Client.React(Client.StripHeader(Responses.Frame(block))) == Client.UnknownResponse
  {
    var h := Client.ResponseHeader(verb);
    var framed := Responses.Frame(block);
    assert verb[0] != 'R';
    assert h[0] == verb[0] && h[4] == 'r' && h[6] == 's';
    assert framed[..7] == block[..7] == h[..7];
    var p := Client.StripHeader(framed);
    assert p[0] == 'r' && p[2] == 's';
    Unrecognised(p);
    assert Client.COMMAND_HEADER[0] == 'R';
  }

  /** A table holding the caller and some other device has a device
      other than the caller. */
  lemma AnotherDevice(devices: map<string, Device>, self: string) returns (other: string)
    requires self in devices && |devices| != 1
    ensures other in devices && other != self
  {
    var rest := devices.Keys - {self};
    assert |rest| == |devices| - 1;
    assert (forall x :: x !in rest) ==> rest == {};
    other :| other in rest;
  }

  /** Two different devices in the table: it does not have exactly one key. */
  lemma TwoDevices(devices: map<string, Device>, a: string, b: string)
    requires a in devices && b in devices && a != b
    ensures |devices| != 1
  {
    var rest := devices.Keys - {a};
    assert |rest| == |devices| - 1;
    assert b in rest;
    assert rest != {};
  }

  /** With another device present, the AED reply has a line for it. */
  lemma OthersListed(devices: map<string, Device>, order: seq<string>, self: string)
    requires Enumerates(order, devices) && self in devices && |devices| != 1
    requires forall d :: d in devices ==> devices[d].ipAddr != []
    ensures Responses.Listed(devices, order)
    ensures Responses.AedLines(devices, order, self) != []
  {
    var other := AnotherDevice(devices, self);
    Responses.AedLinesAreOthers(devices, order, self);
    assert other in Without(order, self);
  }

  /** The AED reply starts with its response block header. */
  lemma AedReportHeader(devices: map<string, Device>, order: seq<string>, self: string)
    requires Enumerates(order, devices) && self in devices
    requires forall d :: d in devices ==> devices[d].ipAddr != []
    ensures Responses.Listed(devices, order)
    ensures Client.HasPrefix(Responses.AedReport(devices, order, self), Client.ResponseHeader("AED"))
  {
    var h := Client.ResponseHeader("AED");
    assert h == Responses.AED_HEADER + "\n";
    if |devices| != 1 {
      OthersListed(devices, order, self);
      var xs := [Responses.AED_HEADER] + Responses.AedLines(devices, order, self);
      JoinFirst(xs, '\n');
      assert Responses.AedReport(devices, order, self) == h + Join(xs[1..], '\n');
    }
  }

  /** Without the header, the AED reply is not recognised. */
  lemma UnheadedAedMisread(devices: map<string, Device>, order: seq<string>, self: string)
    requires Enumerates(order, devices) && self in devices
    requires forall d :: d in devices ==> devices[d].ipAddr != []
    ensures Responses.Listed(devices, order)
    ensures Client.React(Client.StripHeader(Responses.Frame(Responses.AedReport(devices, order, self))))
      == Client.UnknownResponse
  {
    AedReportHeader(devices, order, self);
    UnheadedBlockMisread("AED", Responses.AedReport(devices, order, self));
  }

  // ---------------------------------------------------------------------
  // The words of a peer line

  lemma FixedTokens()
    ensures IsToken("active") && IsToken("since") && IsToken("IP") && IsToken("address:") && IsToken("UDP")
  {
  }

  lemma Regroup<T>(a: seq<T>, b: seq<T>, c: seq<T>, d: seq<T>, e: seq<T>, f: seq<T>, g: seq<T>, h: seq<T>)
    ensures a + b + c + d + e + f + g + h == a + (b + c + (d + e + (f + g + h)))
  {
  }

  lemma PortTail(port: string, extra: string)
    ensures ", UDP port number: " + port + extra == "," + " " + ("UDP" + " " + ("port number: " + port + extra))
  {
    assert ", UDP port number: " == "," + " " + "UDP" + " " + "port number: ";
  }

  lemma AddressTail(ip: char, t3: string, s10: string)
    requires t3 == "," + " " + s10
    ensures ", IP address: " + [ip] + t3 == "," + " " + ("IP" + " " + ("address:" + " " + (([ip] + ",") + " " + s10)))
  {
    assert ", IP address: " == "," + " " + "IP" + " " + "address:" + " ";
  }

  lemma SinceTail(day: string, month: string, year: string, time: string, t2: string, s7: string)
    requires t2 == "," + " " + s7
    ensures ", active since " + (day + " " + month + " " + year + " " + time) + t2
      == "," + " " + ("active" + " " + ("since" + " " + (day + " " + (month + " " + (year + " " + ((time + ",") + " " + s7))))))
  {
    assert ", active since " == "," + " " + "active" + " " + "since" + " ";
  }

  /** The words from the time of day on. */
  lemma TailWords(time: string, ip: char, rest: string)
    requires IsToken(time) && !IsSpace(ip)
    ensures Words((time + ",") + " " + ("IP" + " " + ("address:" + " " + (([ip] + ",") + " " + ("UDP" + " " + rest)))))
      == [time + ","] + (["IP"] + (["address:"] + ([[ip] + ","] + (["UDP"] + Words(rest)))))
  {
    FixedTokens();
    var s10 := "UDP" + " " + rest;
    var s9 := ([ip] + ",") + " " + s10;
    var s8 := "address:" + " " + s9;
    var s7 := "IP" + " " + s8;
    WordsCons("UDP", rest);
    WordsCons([ip] + ",", s10);
    WordsCons("address:", s9);
    WordsCons("IP", s8);
    WordsCons(time + ",", s7);
  }

  /** The words up to the time of day. */
  lemma HeadWords(name: string, day: string, month: string, year: string, s6: string)
    requires IsToken(name) && IsToken(day) && IsToken(month) && IsToken(year)
    ensures Words((name + ",") + " " + ("active" + " " + ("since" + " " + (day + " " + (month + " " + (year + " " + s6))))))
      == [name + ","] + (["active"] + (["since"] + ([day] + ([month] + ([year] + Words(s6))))))
  {
    FixedTokens();
    var s5 := year + " " + s6;
    var s4 := month + " " + s5;
    var s3 := day + " " + s4;
    var s2 := "since" + " " + s3;
    var s1 := "active" + " " + s2;
    WordsCons(year, s6);
    WordsCons(month, s5);
    WordsCons(day, s4);
    WordsCons("since", s3);
    WordsCons("active", s2);
    WordsCons(name + ",", s1);
  }

  /** A peer line whose timestamp has the server's format
      `"DD Month YYYY HH:MM:SS"` splits so that token 6 is the time of day
      followed by a comma and token 10 is the word `UDP`, whatever follows
      the line. */
  lemma AedLineWords(name: string, dev: Device, day: string, month: string, year: string, time: string, extra: string)
    requires IsToken(name) && IsToken(day) && IsToken(month) && IsToken(year) && IsToken(time)
    requires dev.timestamp == day + " " + month + " " + year + " " + time
    requires dev.ipAddr != [] && !IsSpace(dev.ipAddr[0])
    ensures var w := Words(Responses.AedLine(name, dev) + extra);
      |w| >= 11 && w[0] == name + "," && w[6] == time + "," && w[10] == "UDP"
  {
    var ip := dev.ipAddr[0];
    var rest := "port number: " + IntToString(dev.udpPort) + extra;
    var s6 := (time + ",") + " " + ("IP" + " " + ("address:" + " " + (([ip] + ",") + " " + ("UDP" + " " + rest))));
    AedLineLayout(name, dev, day, month, year, time, extra);
    TailWords(time, ip, rest);
    HeadWords(name, day, month, year, s6);
    var w, w6 := Words(Responses.AedLine(name, dev) + extra), Words(s6);
    HeadIndex(w, name + ",", "active", "since", day, month, year, w6);
    TailIndex(w6, time + ",", "IP", "address:", [ip] + ",", "UDP", Words(rest));
  }

  /** Six words and then `ws`: the first is `a` and `ws` starts at 6. */
  lemma HeadIndex(w: seq<string>, a: string, b: string, c: string, d: string, e: string, f: string, ws: seq<string>)
    requires w == [a] + ([b] + ([c] + ([d] + ([e] + ([f] + ws)))))
    ensures |w| == 6 + |ws| && w[0] == a && w[6..] == ws
  {
  }

  /** Five words and then `ws`: the first is `a` and the fifth `e`. */
  lemma TailIndex(w: seq<string>, a: string, b: string, c: string, d: string, e: string, ws: seq<string>)
    requires w == [a] + ([b] + ([c] + ([d] + ([e] + ws))))
    ensures |w| >= 5 && w[0] == a && w[4] == e
  {
  }

  /** A peer line, with whatever follows it, as its blank-separated
      pieces: the name and a comma, "active since", the timestamp's four
      parts, "IP address:", the address character and a comma, "UDP", and
      the rest. */
  lemma AedLineLayout(name: string, dev: Device, day: string, month: string, year: string, time: string, extra: string)
    requires dev.timestamp == day + " " + month + " " + year + " " + time
    requires dev.ipAddr != []
    ensures Responses.AedLine(name, dev) + extra
      == (name + ",") + " " + ("active" + " " + ("since" + " " + (day + " " + (month + " " + (year + " "
         + ((time + ",") + " " + ("IP" + " " + ("address:" + " " + (([dev.ipAddr[0]] + ",") + " "
         + ("UDP" + " " + ("port number: " + IntToString(dev.udpPort) + extra)))))))))))
  {
    var port := IntToString(dev.udpPort);
    var ip := dev.ipAddr[0];
    var rest := "port number: " + port + extra;
    var s10 := "UDP" + " " + rest;
    var s7 := "IP" + " " + ("address:" + " " + (([ip] + ",") + " " + s10));
    var t3 := ", UDP port number: " + port + extra;
    PortTail(port, extra);
    var t2 := ", IP address: " + [ip] + t3;
    AddressTail(ip, t3, s10);
    var t1 := ", active since " + dev.timestamp + t2;
    SinceTail(day, month, year, time, t2, s7);
    Regroup(name, ", active since ", dev.timestamp, ", IP address: ", [ip], ", UDP port number: ", port, extra);
    assert Responses.AedLine(name, dev) + extra == name + t1;
  }

  lemma SinceSplit()
    ensures ", active since " == "," + " " + "active since "
  {
  }

  /** A peer line is its name and a comma, a blank, and the rest. */
  lemma AedLineSplit(name: string, dev: Device, extra: string) returns (rest: string)
    requires dev.ipAddr != []
    ensures Responses.AedLine(name, dev) + extra == (name + ",") + " " + rest
  {
    var port := IntToString(dev.udpPort);
    var ip := [dev.ipAddr[0]];
    rest := "active since " + dev.timestamp + ", IP address: " + ip + ", UDP port number: " + port + extra;
    SinceSplit();
    Regroup(name, ", active since ", dev.timestamp, ", IP address: ", ip, ", UDP port number: ", port, extra);
  }

  /** The name `getDeviceDetails` reads from a peer line is the device's. */
  lemma AedLineName(name: string, dev: Device, extra: string)
    requires IsToken(name) && dev.ipAddr != []
    ensures Client.LineName(Responses.AedLine(name, dev) + extra) == Some(name)
  {
    var rest := AedLineSplit(name, dev, extra);
    WordsCons(name + ",", rest);
    assert Client.DropLast(name + ",") == name;
  }

  // ---------------------------------------------------------------------
  // getDeviceDetails on the server's AED reply

  /** The lines `getDeviceDetails` searches, when the table holds another
      device: the peer lines in order, the last one still carrying the
      frame's carriage return. */
  lemma ReceivedLines(devices: map<string, Device>, order: seq<string>, self: string)
    requires Responses.Listed(devices, order) && |devices| != 1
    requires forall d :: d in devices ==> '\n' !in d && '\n' !in devices[d].timestamp && '\n' !in devices[d].ipAddr
    ensures Responses.Listed(devices, Without(order, self))
    ensures var lines := Split(Responses.Frame(Responses.AedReport(devices, order, self)), '\n')[1..];
      var others := Without(order, self);
      |lines| == |others| &&
      forall j :: 0 <= j < |lines| ==>
        lines[j] == Responses.AedLine(others[j], devices[others[j]]) + (if j == |lines| - 1 then "\r" else "")
  {
    var report := Responses.AedReport(devices, order, self);
    var others := Without(order, self);
    Responses.AedLinesAreOthers(devices, order, self);
    Responses.AedReportPeers(devices, order, self);
    var lo := Responses.LinesOf(devices, others);
    var xs := [Responses.AED_HEADER] + lo;
    assert Split(report, '\n') == xs;
    SplitAppendChar(report, '\r', '\n');
    assert Responses.Frame(report) == report + ['\r'];
    HeaderDropped(Responses.AED_HEADER, lo, Split(Responses.Frame(report), '\n'), "\r");
  }

  /** Extending the last of the pieces extends that piece and no other;
      dropping the first piece then leaves the rest. */
  lemma HeaderDropped(h: string, lo: seq<string>, ys: seq<string>, e: string)
    requires var xs := [h] + lo; ys == xs[..|xs| - 1] + [xs[|xs| - 1] + e]
    ensures |ys[1..]| == |lo|
    ensures forall j :: 0 <= j < |lo| ==> ys[1..][j] == lo[j] + (if j == |lo| - 1 then e else "")
  {
    var xs := [h] + lo;
    forall j | 0 <= j < |lo|
      ensures ys[1..][j] == lo[j] + (if j == |lo| - 1 then e else "")
    {
      assert ys[1..][j] == ys[j + 1] && xs[j + 1] == lo[j];
      if j < |lo| - 1 {
        assert lo[j] + "" == lo[j];
      }
    }
  }

  /** Asked for another active device, `getDeviceDetails` answers with the
      time of day at which it registered as the "address" and the word
      `UDP` as the "port": token 6 and token 10 of its line are not the
      address and the port number. */
  lemma PeerDetailsAreTimeAndUdp(devices: map<string, Device>, order: seq<string>, self: string, target: string,
                                 day: string, month: string, year: string, time: string)
    requires Enumerates(order, devices) && self in devices && target in devices && target != self
    requires forall d :: d in devices ==>
      IsToken(d) && devices[d].ipAddr != [] && '\n' !in devices[d].timestamp && '\n' !in devices[d].ipAddr
    requires IsToken(day) && IsToken(month) && IsToken(year) && IsToken(time)
    requires devices[target].timestamp == day + " " + month + " " + year + " " + time
    requires !IsSpace(devices[target].ipAddr[0])
    ensures Responses.Listed(devices, order)
    ensures Client.GetDeviceDetails(Responses.Frame(Responses.AedReport(devices, order, self)), target)
      == Client.Found(time, "UDP")
  {
    TwoDevices(devices, self, target);
    var received := Responses.Frame(Responses.AedReport(devices, order, self));
    ReceivedLines(devices, order, self);
    var lines := Split(received, '\n')[1..];
    var others := Without(order, self);
    assert target in others;
    var i :| 0 <= i < |others| && others[i] == target;
    forall j | 0 <= j < |lines|
      ensures Client.LineName(lines[j]) == Some(others[j])
    {
      AedLineName(others[j], devices[others[j]], if j == |lines| - 1 then "\r" else "");
    }
    assert Distinct(others);
    assert Client.FirstNamed(lines, target, i);
    Client.FindDeviceFirstMatch(lines, target);
    AedLineWords(target, devices[target], day, month, year, time, if i == |lines| - 1 then "\r" else "");
    assert Client.DropLast(time + ",") == time;
    assert Client.LineDetails(lines[i]) == Client.Found(time, "UDP");
    assert |lines[0]| > |Client.NO_OTHERS_LINE|;
    assert Client.GetDeviceDetails(received, target) == Client.FindDevice(lines, target);
  }

  /** Asked for the caller itself, `getDeviceDetails` answers "offline":
      the reply never lists the caller. */
  lemma SelfShowsOffline(devices: map<string, Device>, order: seq<string>, self: string)
    requires Enumerates(order, devices) && self in devices && |devices| != 1
    requires forall d :: d in devices ==>
      IsToken(d) && devices[d].ipAddr != [] && '\n' !in devices[d].timestamp && '\n' !in devices[d].ipAddr
    ensures Responses.Listed(devices, order)
    ensures Client.GetDeviceDetails(Responses.Frame(Responses.AedReport(devices, order, self)), self) == Client.Offline
  {
    var received := Responses.Frame(Responses.AedReport(devices, order, self));
    ReceivedLines(devices, order, self);
    var lines := Split(received, '\n')[1..];
    var others := Without(order, self);
    var other := AnotherDevice(devices, self);
    assert other in others;
    forall j | 0 <= j < |lines|
      ensures Client.NamesOther(lines, self, j)
    {
      AedLineName(others[j], devices[others[j]], if j == |lines| - 1 then "\r" else "");
    }
    Client.FindDeviceFirstMatch(lines, self);
    assert |lines[0]| > |Client.NO_OTHERS_LINE|;
    assert Client.GetDeviceDetails(received, self) == Client.FindDevice(lines, self);
  }

  /** The sentinel line as received is named `"n"`. */
  lemma SentinelName()
    ensures Client.LineName(Client.NO_OTHERS_LINE + "\r") == Some("n")
  {
    var l := Client.NO_OTHERS_LINE + "\r";
    assert l[..2] == "no" && l[2] == ' ';
    assert l == "no" + " " + l[3..];
    assert IsToken("no");
    WordsCons("no", l[3..]);
    assert Client.DropLast("no") == "n";
  }

  /** When the caller is the only active device, the sentinel line arrives
      with the frame's carriage return, so the client's sentinel test
      fails; the search still answers "offline" for any name but `"n"`. */
  lemma LoneDeviceSentinelMissed(devices: map<string, Device>, order: seq<string>, self: string, target: string)
    requires Enumerates(order, devices) && self in devices && |devices| == 1
    requires forall d :: d in devices ==> devices[d].ipAddr != []
    ensures Responses.Listed(devices, order)
    ensures Split(Responses.Frame(Responses.AedReport(devices, order, self)), '\n')[1..] == [Client.NO_OTHERS_LINE + "\r"]
    ensures Client.NO_OTHERS_LINE + "\r" != Client.NO_OTHERS_LINE
    ensures target != "n" ==>
      Client.GetDeviceDetails(Responses.Frame(Responses.AedReport(devices, order, self)), target) == Client.Offline
  {
    var report := Responses.AedReport(devices, order, self);
    Responses.AedReportSentinel(devices, order, self);
    SplitAppendChar(report, '\r', '\n');
    assert Responses.Frame(report) == report + ['\r'];
    var line := Client.NO_OTHERS_LINE + "\r";
    assert |line| != |Client.NO_OTHERS_LINE|;
    SentinelName();
    Client.FindDeviceFirstMatch([line], target);
  }

  // ---------------------------------------------------------------------
  // Commands the server does not serve

  /** The `UED`, `SCS` and `DTE` commands the client accepts and sends
      (for `UED`, with the file's contents) are all answered "Cannot
      understand this message": the server's dispatch knows only `OUT`,
      `AED`, `EDG`, `login` and `download`. */
  lemma UnservedCommands(message: string, v: Client.Verdict, files: map<string, string>)
    requires Client.Verb(message) in ["UED", "SCS", "DTE"]
    requires v.Upload? ==> v.fileName in files
    ensures Session.Classify(Client.CommandText(message, v, files)) == Session.Unrecognised
  {
    var t := Client.CommandText(message, v, files);
    var verb := Client.Verb(message);
    assert |message| >= 3 && message[..3] == verb;
    assert |t| >= 3 && t[..3] == message[..3];
    assert t[0] in "USD";
    assert verb != "EDG";
  }
}
