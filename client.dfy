/** The client script's handling of text: the `RC1;`/`RC0;` control
    header, the reaction to each server reply, the parsing of an AED reply
    in `getDeviceDetails`, the command filter and the `UED` upload body. */
module Client {
  import opened Text

  // ---------------------------------------------------------------------
  // The control header

  const COMMAND_HEADER := "RC1;"
  const OTHER_HEADER := "RC0;"

  /** `re.match("^RC1;.*", received)`: the reply asks for a command. */
  predicate CommandRequested(received: string) {
    |received| >= 4 && received[..4] == COMMAND_HEADER
  }

  /** `received[4:]`: Python's slice yields the empty string when the text
      is shorter than the header. */
  function StripHeader(received: string): (r: string)
    ensures |received| >= 4 ==> received == received[..4] + r
    ensures |received| < 4 ==> r == []
  {
    if |received| >= 4 then received[4..] else []
  }

  /** The header a reply would carry: `RC1;` when a command is wanted. */
  function Header(commandWanted: bool): (h: string)
    ensures |h| == 4
  {
    if commandWanted then COMMAND_HEADER else OTHER_HEADER
  }

  /** A headed reply is read back as sent: the flag and the payload. */
  lemma HeaderRoundTrip(commandWanted: bool, payload: string)
    ensures CommandRequested(Header(commandWanted) + payload) == commandWanted
    ensures StripHeader(Header(commandWanted) + payload) == payload
  {
    var received := Header(commandWanted) + payload;
    assert received[..4] == Header(commandWanted);
    assert received[4..] == payload;
  }

  // ---------------------------------------------------------------------
  // Reactions to a reply (the chain of tests after the header is removed)

  datatype Reaction =
    | EmptyMessage
    | AskUsername(retry: bool)
    | AskPassword(retry: bool)
    | LockedOut
    | AccountBlocked
    | AskAnotherUsername
    | LoggedOut
    | AwaitCommand(welcome: bool)
    | ShowResponse(verb: string, body: string)
    | UnknownResponse

  /** `re.match("^V resp: \n.*", s)`: `.` never needs to match, so the
      test is a prefix test. */
  predicate HasPrefix(s: string, p: string) {
    |p| <= |s| && s[..|p|] == p
  }

  lemma PrefixRest(s: string, p: string)
    requires HasPrefix(s, p)
    ensures s == p + s[|p|..]
  {
    assert s == s[..|p|] + s[|p|..];
  }

  const RESPONSE_VERBS: seq<string> := ["AED", "EDG", "DTE", "SCS", "UED"]

  /** The header of a command's response block, `"V resp: \n"`. */
  function ResponseHeader(verb: string): string {
    verb + " resp: \n"
  }

  /** The first response verb, in the order the client tests them, whose
      block header starts `payload`. */
  function ResponseVerb(payload: string, k: nat): (r: Option<string>)
    requires k <= |RESPONSE_VERBS|
    ensures r.Some? ==> r.value in RESPONSE_VERBS[k..] && HasPrefix(payload, ResponseHeader(r.value))
    ensures r.None? ==> forall j :: k <= j < |RESPONSE_VERBS| ==> !HasPrefix(payload, ResponseHeader(RESPONSE_VERBS[j]))
    decreases |RESPONSE_VERBS| - k
  {
    if k == |RESPONSE_VERBS| then None
    else if HasPrefix(payload, ResponseHeader(RESPONSE_VERBS[k])) then Some(RESPONSE_VERBS[k])
    else ResponseVerb(payload, k + 1)
  }

  /** The client's tests of a reply against the fixed login and session
      replies, in the order it makes them. */
  function FixedReply(payload: string): (r: Option<Reaction>)
    ensures r.Some? ==> r.value != EmptyMessage && r.value != UnknownResponse && !r.value.ShowResponse?
  {
    if payload == "username authentication request\r" then Some(AskUsername(false))
    else if payload == "retry username authentication request\r" then Some(AskUsername(true))
    else if payload == "password authentication request\r" then Some(AskPassword(false))
    else if payload == "retry password authentication request\r" then Some(AskPassword(true))
    else if payload == "max failed attempts\r" then Some(LockedOut)
    else if payload == "blocked account\r" then Some(AccountBlocked)
    else if payload == "username already logged in\r" then Some(AskAnotherUsername)
    else if payload == "successfully disconnected\r" then Some(LoggedOut)
    else if payload == "welcome\r" then Some(AwaitCommand(true))
    else if payload == "command request\r" then Some(AwaitCommand(false))
    else None
  }

  /** What the client does with a reply once its header is removed. The
      test `strip() == "\r"` can never succeed, because `strip` removes the
      carriage return itself. */
  function React(payload: string): (r: Reaction)
    ensures r == EmptyMessage <==> forall i :: 0 <= i < |payload| ==> IsSpace(payload[i])
    ensures r.ShowResponse? ==> payload == ResponseHeader(r.verb) + r.body && r.verb in RESPONSE_VERBS
  {
    StripBlank(payload);
    var s := Strip(payload);
    if s == [] || s == "\r" then EmptyMessage
    else match FixedReply(payload)
      case Some(reaction) => reaction
      case None =>
        match ResponseVerb(payload, 0)
        case Some(verb) =>
          var h := ResponseHeader(verb);
          PrefixRest(payload, h);
          ShowResponse(verb, payload[|h|..])
        case None => UnknownResponse
  }

  /** How `React` treats a reply that is not blank: a fixed text gets its
      fixed reaction; otherwise a reply starting with a response header is
      shown, and any other reply is unknown. */
  lemma ReactDispatch(payload: string)
    ensures !(forall i :: 0 <= i < |payload| ==> IsSpace(payload[i])) && FixedReply(payload).Some? ==>
              React(payload) == FixedReply(payload).value
    ensures React(payload).ShowResponse? <==>
              !(forall i :: 0 <= i < |payload| ==> IsSpace(payload[i]))
              && FixedReply(payload).None? && ResponseVerb(payload, 0).Some?
    ensures React(payload).ShowResponse? ==> React(payload).verb == ResponseVerb(payload, 0).value
    ensures React(payload) == UnknownResponse <==>
              !(forall i :: 0 <= i < |payload| ==> IsSpace(payload[i]))
              && FixedReply(payload).None? && ResponseVerb(payload, 0).None?
  {
    StripBlank(payload);
    var s := Strip(payload);
    assert s != "\r" by {
      if s == "\r" { assert IsSpace(s[0]); }
    }
  }

  /** `strip()` yields the empty string exactly for all-blank text. */
  lemma {:induction false} StripBlank(s: string)
    ensures Strip(s) == [] <==> forall i :: 0 <= i < |s| ==> IsSpace(s[i])
    decreases |s|
  {
    if s != [] {
      if IsSpace(s[0]) {
        StripBlank(s[1..]);
        assert forall i :: 1 <= i < |s| ==> s[i] == s[1..][i - 1];
      } else if IsSpace(s[|s| - 1]) {
        var init := s[..|s| - 1];
        StripBlank(init);
        assert !IsSpace(init[0]);
      }
    }
  }

  // ---------------------------------------------------------------------
  // getDeviceDetails

  /** The result of `getDeviceDetails`: `None`, an `(address, port)` pair,
      or the `IndexError` that ends the script. */
  datatype Details = Offline | Found(address: string, port: string) | IndexError

  /** `s[:-1]`. */
  function DropLast(s: string): (r: string)
    ensures s != [] ==> s == r + [s[|s| - 1]]
  {
    if s == [] then [] else s[..|s| - 1]
  }

  const NO_OTHERS_LINE := "no other active edge devices"

  /** The name a line of the reply carries: its first token without its
      last character (`deviceInfo[0][:-1]`); `None` where the line has no
      token and `deviceInfo[0]` raises. */
  function LineName(line: string): Option<string> {
    var tokens := Words(line);
    if tokens == [] then None else Some(DropLast(tokens[0]))
  }

  /** The pair read from a matching line: token 6 without its last
      character and token 10; `IndexError` below eleven tokens. */
  function LineDetails(line: string): Details {
    var tokens := Words(line);
    if |tokens| < 11 then IndexError else Found(DropLast(tokens[6]), tokens[10])
  }

  /** The loop of `getDeviceDetails` over the lines after the header. */
  function FindDevice(lines: seq<string>, name: string): Details {
    if lines == [] then Offline
    else match LineName(lines[0])
      case None => IndexError
      case Some(n) => if n != name then FindDevice(lines[1..], name) else LineDetails(lines[0])
  }

  /** Line `i` has a name and it is not `name`. */
  ghost predicate NamesOther(lines: seq<string>, name: string, i: int)
    requires 0 <= i < |lines|
  {
    LineName(lines[i]).Some? && LineName(lines[i]).value != name
  }

  /** Line `i` is the first line named `name`, and every earlier line has
      a name. */
  ghost predicate FirstNamed(lines: seq<string>, name: string, i: int) {
    0 <= i < |lines| && LineName(lines[i]) == Some(name)
    && forall j :: 0 <= j < i ==> NamesOther(lines, name, j)
  }

  /** The search answers "offline" exactly when every line names another
      device, and otherwise reads the first line naming the device; a line
      without a name before it raises `IndexError`. */
  lemma {:induction false} FindDeviceFirstMatch(lines: seq<string>, name: string)
    ensures FindDevice(lines, name) == Offline <==> forall i :: 0 <= i < |lines| ==> NamesOther(lines, name, i)
    ensures forall i :: FirstNamed(lines, name, i) ==> FindDevice(lines, name) == LineDetails(lines[i])
    ensures FindDevice(lines, name).Found? ==> exists i :: FirstNamed(lines, name, i)
  {
    if lines != [] {
      var tail := lines[1..];
      FindDeviceFirstMatch(tail, name);
      forall i | 1 <= i < |lines|
        ensures lines[i] == tail[i - 1]
        ensures NamesOther(lines, name, i) <==> NamesOther(tail, name, i - 1)
      {
      }
      if LineName(lines[0]) == None {
        assert !NamesOther(lines, name, 0);
        assert forall i :: !FirstNamed(lines, name, i);
      } else if LineName(lines[0]).value != name {
        assert NamesOther(lines, name, 0);
        forall i | FirstNamed(lines, name, i)
          ensures i >= 1 && FirstNamed(tail, name, i - 1)
        {
          forall j | 0 <= j < i - 1
            ensures NamesOther(tail, name, j)
          {
            assert NamesOther(lines, name, j + 1);
          }
        }
        if FindDevice(lines, name).Found? {
          var k :| FirstNamed(tail, name, k);
          forall j | 0 <= j < k + 1
            ensures NamesOther(lines, name, j)
          {
            if j > 0 {
              assert NamesOther(tail, name, j - 1);
            }
          }
          assert FirstNamed(lines, name, k + 1);
        }
      } else {
        assert FirstNamed(lines, name, 0);
        assert !NamesOther(lines, name, 0);
      }
    }
  }

  /** `getDeviceDetails` on the text received for its `AED` query: the
      lines after the first, the sentinel test on the second line, then the
      search. */
  function GetDeviceDetails(received: string, name: string): (r: Details)
    // no second line: indexing it raises
    ensures '\n' !in received ==> r == IndexError
    // the sentinel as the second line: the device is offline
    ensures var pieces := Split(received, '\n');
      |pieces| >= 2 && pieces[1] == NO_OTHERS_LINE ==> r == Offline
    // otherwise the lines after the header are searched for the name
    ensures var pieces := Split(received, '\n');
      |pieces| >= 2 && pieces[1] != NO_OTHERS_LINE ==> r == FindDevice(pieces[1..], name)
  {
    assert '\n' !in received ==> |Split(received, '\n')| == 1 by {
      if '\n' !in received {
        SplitNoSeparator(received, '\n');
      }
    }
    var lines := Split(received, '\n')[1..];
    if lines == [] then IndexError
    else if lines[0] == NO_OTHERS_LINE then Offline
    else FindDevice(lines, name)
  }

  // ---------------------------------------------------------------------
  // The command filter

  const VERBS: seq<string> := ["EDG", "UED", "SCS", "DTE", "AED", "OUT", "UVF"]

  /** `message[0:3]`. */
  function Verb(message: string): (v: string)
    ensures |v| <= 3 && |v| <= |message| && v == message[..|v|]
    ensures |message| >= 3 ==> |v| == 3
  {
    if |message| <= 3 then message else message[..3]
  }

  /** `f"{username}-{fileID}.txt"`: the file a `UED` command uploads. */
  function UploadFileName(username: string, fileID: string): string {
    username + "-" + fileID + ".txt"
  }

  /** The filter's verdict on one typed (stripped) command. */
  datatype Verdict =
    | InvalidCommand
    | NeedFileID
    | NoUploadFile
    | Upload(fileName: string)
    | NeedDeviceAndFile
    | NoFileToSend
    | QueryDevice(deviceName: string, fileName: string)
    | Pass

  /** The command is sent and the prompting stops. */
  predicate Accepted(v: Verdict) {
    v.Upload? || v == Pass
  }

  /** The tests of the command loop for one typed line: a verb outside the
      seven is refused; `UED` needs exactly two words and an existing
      upload file; `UVF` needs exactly three words and an existing file,
      and then only queries the device; the other verbs pass unchecked. */
  function Check(message: string, username: string, files: set<string>): (r: Verdict)
    ensures r == InvalidCommand <==> Verb(message) !in VERBS
    ensures Accepted(r) ==> Verb(message) in VERBS && Verb(message) != "UVF"
    ensures r.Upload? <==>
      Verb(message) == "UED" && |Words(message)| == 2 && UploadFileName(username, Words(message)[1]) in files
    ensures r.Upload? ==> r.fileName == UploadFileName(username, Words(message)[1]) && r.fileName in files
    ensures r.QueryDevice? <==> Verb(message) == "UVF" && |Words(message)| == 3 && Words(message)[2] in files
    ensures r.QueryDevice? ==> r.deviceName == Words(message)[1] && r.fileName == Words(message)[2]
    ensures r == Pass <==> Verb(message) in VERBS && Verb(message) != "UED" && Verb(message) != "UVF"
  {
    var verb := Verb(message);
    if verb !in VERBS then InvalidCommand
    else if verb == "UED" then
      var args := Words(message);
      if |args| != 2 then NeedFileID
      else if UploadFileName(username, args[1]) !in files then NoUploadFile
      else Upload(UploadFileName(username, args[1]))
    else if verb == "UVF" then
      var args := Words(message);
      if |args| != 3 then NeedDeviceAndFile
      else if args[2] !in files then NoFileToSend
      else QueryDevice(args[1], args[2])
    else Pass
  }

  // ---------------------------------------------------------------------
  // The UED body and the command loop

  /** The upload body: the command, a newline, then the file's lines
      appended one by one in order. */
  method UedBody(message: string, content: string) returns (body: string)
    ensures body == message + "\n" + content
  {
    var lines := ReadLines(content);
    body := message + "\n";
    var i := 0;
    while i < |lines|
      invariant 0 <= i <= |lines|
      invariant body == message + "\n" + Concat(lines[..i])
    {
      assert lines[..i + 1][..i] == lines[..i];
      body := body + lines[i];
      i := i + 1;
    }
    assert lines[..i] == lines;
    ConcatReadLines(content);
  }

  datatype Outcome = CommandSent | InputClosed | Crashed

  /** The reply to the `q`-th `AED` query; a closed socket yields "". */
  function Reply(replies: seq<string>, q: nat): string {
    if q < |replies| then replies[q] else []
  }

  /** The verdicts on the typed lines, once stripped, in order. */
  function Verdicts(typed: seq<string>, username: string, files: map<string, string>): (r: seq<Verdict>)
    ensures |r| == |typed|
    ensures forall j :: 0 <= j < |r| ==> r[j] == Check(Strip(typed[j]), username, files.Keys)
  {
    seq(|typed|, j requires 0 <= j < |typed| => Check(Strip(typed[j]), username, files.Keys))
  }

  /** What goes out for an accepted command: the upload body for `UED`,
      the command itself otherwise. */
  function CommandText(message: string, v: Verdict, files: map<string, string>): string
    requires v.Upload? ==> v.fileName in files
  {
    if v.Upload? then message + "\n" + files[v.fileName] else message
  }

  /** Every message is an `AED` query. */
  predicate AllQueries(sent: seq<string>) {
    forall k :: 0 <= k < |sent| ==> sent[k] == "AED"
  }

  /** The device names that the `UVF` verdicts among the first `n` of
      `vs` query, in order: one `AED` query goes out for each. */
  function Queried(vs: seq<Verdict>, n: nat): (r: seq<string>)
    requires n <= |vs|
    ensures |r| <= n
  {
    if n == 0 then []
    else Queried(vs, n - 1) + (if vs[n - 1].QueryDevice? then [vs[n - 1].deviceName] else [])
  }

  /** The reply to each of these queries let `getDeviceDetails` go on. */
  ghost predicate QueriesAnswered(names: seq<string>, replies: seq<string>) {
    forall q {:trigger GetDeviceDetails(Reply(replies, q), names[q])} ::
      0 <= q < |names| ==> GetDeviceDetails(Reply(replies, q), names[q]) != IndexError
  }

  /** The prompt after the first `n` verdicts: none of them accepted a
      command, and `sent` holds one `AED` query per `UVF` line among
      them, each of whose replies `getDeviceDetails` accepted. */
  ghost predicate Prompted(vs: seq<Verdict>, replies: seq<string>, sent: seq<string>, n: int) {
    && 0 <= n <= |vs| && (forall j :: 0 <= j < n ==> !Accepted(vs[j]))
    && AllQueries(sent) && |sent| == |Queried(vs, n)| && QueriesAnswered(Queried(vs, n), replies)
  }

  /** A query whose reply was accepted adds its name to the answered
      queries; any other verdict leaves them as they are. */
  lemma QueryStep(vs: seq<Verdict>, i: nat, sent: seq<string>, replies: seq<string>)
    requires i < |vs|
    requires |sent| == |Queried(vs, i)| && QueriesAnswered(Queried(vs, i), replies)
    requires vs[i].QueryDevice? ==> GetDeviceDetails(Reply(replies, |sent|), vs[i].deviceName) != IndexError
    ensures var sent' := if vs[i].QueryDevice? then sent + ["AED"] else sent;
      |sent'| == |Queried(vs, i + 1)| && QueriesAnswered(Queried(vs, i + 1), replies)
  {
    var names := Queried(vs, i);
    if vs[i].QueryDevice? {
      assert Queried(vs, i + 1) == names + [vs[i].deviceName];
      AnsweredExtend(names, vs[i].deviceName, replies);
    } else {
      assert Queried(vs, i + 1) == names;
    }
  }

  /** A further query whose reply was accepted keeps every query answered. */
  lemma AnsweredExtend(names: seq<string>, name: string, replies: seq<string>)
    requires QueriesAnswered(names, replies)
    requires GetDeviceDetails(Reply(replies, |names|), name) != IndexError
    ensures QueriesAnswered(names + [name], replies)
  {
    var names' := names + [name];
    forall q | 0 <= q < |names'|
      ensures GetDeviceDetails(Reply(replies, q), names'[q]) != IndexError
    {
      if q < |names| {
        assert names'[q] == names[q];
      }
    }
  }

  /** A refused line, whose query if it made one was answered, extends
      the prompt by one line. */
  lemma Refused(vs: seq<Verdict>, replies: seq<string>, sent: seq<string>, i: nat)
    requires Prompted(vs, replies, sent, i) && i < |vs| && !Accepted(vs[i])
    requires vs[i].QueryDevice? ==> GetDeviceDetails(Reply(replies, |sent|), vs[i].deviceName) != IndexError
    ensures Prompted(vs, replies, if vs[i].QueryDevice? then sent + ["AED"] else sent, i + 1)
  {
    QueryStep(vs, i, sent, replies);
    if vs[i].QueryDevice? {
      assert AllQueries(sent + ["AED"]);
    }
  }

  /** How the prompt over the verdicts `vs` stopped after `used` lines,
      the command itself aside: when the lines ran out, after an accepted
      line, or on a query whose reply raised `IndexError`. The last
      message of the second and third is the command and the raising
      query. */
  ghost predicate Stopped(vs: seq<Verdict>, replies: seq<string>, sent: seq<string>, used: nat, outcome: Outcome) {
    used <= |vs| &&
    match outcome
    case InputClosed =>
      used == |vs| && Prompted(vs, replies, sent, used)
    case CommandSent =>
      1 <= used && sent != [] && Prompted(vs, replies, sent[..|sent| - 1], used - 1) && Accepted(vs[used - 1])
    case Crashed =>
      && 1 <= used && sent != [] && Prompted(vs, replies, sent[..|sent| - 1], used - 1)
      && vs[used - 1].QueryDevice? && sent[|sent| - 1] == "AED"
      && GetDeviceDetails(Reply(replies, |sent| - 1), vs[used - 1].deviceName) == IndexError
  }

  /** What the prompt loop promises. It stops at the first accepted line
      and sends it last; every line before it was refused or only queried
      a device, one `AED` query going out per `UVF` line, and each of
      those replies was accepted. It ends without sending a command only
      when the typed lines run out (`input()` fails) or the reply to the
      last query makes `getDeviceDetails` raise `IndexError`. */
  ghost predicate PromptOutcome(typed: seq<string>, username: string, files: map<string, string>, replies: seq<string>,
                                sent: seq<string>, used: nat, outcome: Outcome)
  {
    var vs := Verdicts(typed, username, files);
    && Stopped(vs, replies, sent, used, outcome)
    && (outcome == CommandSent ==> sent[|sent| - 1] == CommandText(Strip(typed[used - 1]), vs[used - 1], files))
  }

  /** Running out of typed lines ends the prompt with only queries sent. */
  lemma InputEnds(typed: seq<string>, username: string, files: map<string, string>, replies: seq<string>,
                  sent: seq<string>)
    requires Prompted(Verdicts(typed, username, files), replies, sent, |typed|)
    ensures PromptOutcome(typed, username, files, replies, sent, |typed|, InputClosed)
  {
  }

  /** Sending the command accepted on line `i` ends the prompt. */
  lemma SendingEnds(typed: seq<string>, username: string, files: map<string, string>, replies: seq<string>,
                    sent: seq<string>, i: nat, text: string)
    requires var vs := Verdicts(typed, username, files);
      && Prompted(vs, replies, sent, i) && i < |vs| && Accepted(vs[i])
      && text == CommandText(Strip(typed[i]), vs[i], files)
    ensures PromptOutcome(typed, username, files, replies, sent + [text], i + 1, CommandSent)
  {
    assert (sent + [text])[..|sent|] == sent;
  }

  /** A query on line `i` whose reply raises ends the prompt. */
  lemma CrashEnds(typed: seq<string>, username: string, files: map<string, string>, replies: seq<string>,
                  sent: seq<string>, i: nat)
    requires var vs := Verdicts(typed, username, files);
      && Prompted(vs, replies, sent, i) && i < |vs| && vs[i].QueryDevice?
      && GetDeviceDetails(Reply(replies, |sent|), vs[i].deviceName) == IndexError
    ensures PromptOutcome(typed, username, files, replies, sent + ["AED"], i + 1, Crashed)
  {
    assert (sent + ["AED"])[..|sent|] == sent;
  }

  /** One pass of the prompt loop, on typed line `i`: an accepted
      command is sent and ends the prompt, a `UVF` line sends its `AED`
      query and ends the prompt if the reply raises, any other line is
      refused. */
  method PromptLine(typed: seq<string>, username: string, files: map<string, string>, replies: seq<string>,
                    vs: seq<Verdict>, sent: seq<string>, i: nat)
    returns (sent': seq<string>, stop: bool, outcome: Outcome)
    requires vs == Verdicts(typed, username, files) && i < |vs| && Prompted(vs, replies, sent, i)
    ensures stop ==> PromptOutcome(typed, username, files, replies, sent', i + 1, outcome)
    ensures !stop ==> Prompted(vs, replies, sent', i + 1)
  {
    var message := Strip(typed[i]);
    var verdict := vs[i];
    if verdict.Upload? || verdict == Pass {
      var text := message;
      if verdict.Upload? {
        text := UedBody(message, files[verdict.fileName]);
      }
      SendingEnds(typed, username, files, replies, sent, i, text);
      return sent + [text], true, CommandSent;
    } else if verdict.QueryDevice? {
      var details := GetDeviceDetails(Reply(replies, |sent|), verdict.deviceName);
      if details == IndexError {
        CrashEnds(typed, username, files, replies, sent, i);
        return sent + ["AED"], true, Crashed;
      }
      Refused(vs, replies, sent, i);
      return sent + ["AED"], false, Crashed;
    } else {
      Refused(vs, replies, sent, i);
      return sent, false, Crashed;
    }
  }

  /** The client's prompt loop `while not validInput`, reading typed lines
      from `typed` and the replies to its `AED` queries from `replies`;
      an accepted command ends the loop at once. */
  method PromptCommand(typed: seq<string>, username: string, files: map<string, string>, replies: seq<string>)
    returns (sent: seq<string>, used: nat, outcome: Outcome)
    ensures PromptOutcome(typed, username, files, replies, sent, used, outcome)
  {
    sent := [];
    var i := 0;
    var vs := Verdicts(typed, username, files);
    while true
      invariant Prompted(vs, replies, sent, i)
      decreases |typed| - i
    {
      if i == |typed| {
        InputEnds(typed, username, files, replies, sent);
        return sent, i, InputClosed;
      }
      var stop;
      sent, stop, outcome := PromptLine(typed, username, files, replies, vs, sent, i);
      if stop {
        return sent, i + 1, outcome;
      }
      i := i + 1;
    }
  }

  /** The names queried by the first `m` lines begin the names queried by
      the first `n`. */
  lemma {:induction false} QueriedPrefix(vs: seq<Verdict>, m: nat, n: nat)
    requires m <= n <= |vs|
    ensures |Queried(vs, m)| <= |Queried(vs, n)|
    ensures Queried(vs, n)[..|Queried(vs, m)|] == Queried(vs, m)
  {
    if m < n {
      QueriedPrefix(vs, m, n - 1);
      var a, b := Queried(vs, m), Queried(vs, n - 1);
      assert Queried(vs, n)[..|b|] == b;
      assert Queried(vs, n)[..|a|] == b[..|a|];
    }
  }

  /** A query that raised is not among the answered ones. */
  lemma RaisedIsNotAnswered(vs: seq<Verdict>, replies: seq<string>, k: nat, n: nat)
    requires k < n <= |vs| && vs[k].QueryDevice?
    requires GetDeviceDetails(Reply(replies, |Queried(vs, k)|), vs[k].deviceName) == IndexError
    ensures !QueriesAnswered(Queried(vs, n), replies)
  {
    QueriedAt(vs, k, n);
    UnansweredQuery(Queried(vs, n), replies, |Queried(vs, k)|);
  }

  /** The query of a `UVF` line `k` is the one numbered by the queries
      before it. */
  lemma QueriedAt(vs: seq<Verdict>, k: nat, n: nat)
    requires k < n <= |vs| && vs[k].QueryDevice?
    ensures |Queried(vs, k)| < |Queried(vs, n)| && Queried(vs, n)[|Queried(vs, k)|] == vs[k].deviceName
  {
    QueriedPrefix(vs, k + 1, n);
    var q := |Queried(vs, k)|;
    assert Queried(vs, k + 1) == Queried(vs, k) + [vs[k].deviceName];
    assert Queried(vs, n)[..q + 1][q] == vs[k].deviceName;
  }

  /** One query whose reply raised leaves the queries not all answered. */
  lemma UnansweredQuery(names: seq<string>, replies: seq<string>, q: nat)
    requires q < |names| && GetDeviceDetails(Reply(replies, q), names[q]) == IndexError
    ensures !QueriesAnswered(names, replies)
  {
  }

  /** The prompt that stops earlier stopped on a line the other one went
      past, which is impossible. */
  lemma StoppedSameLine(vs: seq<Verdict>, replies: seq<string>, sent1: seq<string>, used1: nat, outcome1: Outcome,
                        sent2: seq<string>, used2: nat, outcome2: Outcome)
    requires Stopped(vs, replies, sent1, used1, outcome1) && Stopped(vs, replies, sent2, used2, outcome2)
    requires used1 <= used2
    ensures used1 == used2
  {
    if used1 < used2 {
      var (s, m) := if outcome2 == InputClosed then (sent2, used2) else (sent2[..|sent2| - 1], used2 - 1);
      assert Prompted(vs, replies, s, m) && used1 <= m;
      assert !Accepted(vs[used1 - 1]);
      RaisedIsNotAnswered(vs, replies, used1 - 1, m);
    }
  }

  /** Stopping on the same line, the two prompts stopped the same way. */
  lemma StoppedSameWay(vs: seq<Verdict>, replies: seq<string>, sent1: seq<string>, outcome1: Outcome,
                       sent2: seq<string>, used: nat, outcome2: Outcome)
    requires Stopped(vs, replies, sent1, used, outcome1) && Stopped(vs, replies, sent2, used, outcome2)
    ensures outcome1 == outcome2
  {
    if outcome1 != outcome2 && outcome1 != CommandSent && outcome2 != CommandSent {
      RaisedIsNotAnswered(vs, replies, used - 1, used);
    }
  }

  /** The prompt's outcome is determined by the verdicts and the replies:
      two prompts over the same ones stop on the same line, the same way,
      having sent the same messages before the command (and the command
      is then the same line's text). */
  lemma StoppedUnique(vs: seq<Verdict>, replies: seq<string>, sent1: seq<string>, used1: nat, outcome1: Outcome,
                      sent2: seq<string>, used2: nat, outcome2: Outcome)
    requires Stopped(vs, replies, sent1, used1, outcome1) && Stopped(vs, replies, sent2, used2, outcome2)
    ensures used1 == used2 && outcome1 == outcome2 && |sent1| == |sent2|
    ensures outcome1 != CommandSent ==> sent1 == sent2
    ensures outcome1 == CommandSent ==> sent1[..|sent1| - 1] == sent2[..|sent2| - 1]
  {
    if used1 <= used2 {
      StoppedSameLine(vs, replies, sent1, used1, outcome1, sent2, used2, outcome2);
    } else {
      StoppedSameLine(vs, replies, sent2, used2, outcome2, sent1, used1, outcome1);
    }
    StoppedSameWay(vs, replies, sent1, outcome1, sent2, used1, outcome2);
    if outcome1 != InputClosed {
      var n := |sent1| - 1;
      assert forall k :: 0 <= k < n ==> sent1[..n][k] == sent1[k] && sent2[..n][k] == sent2[k];
    }
    assert forall k :: 0 <= k < |sent1| - 1 ==> sent1[k] == sent2[k];
  }
}
