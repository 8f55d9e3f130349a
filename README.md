# IoT sharing network: server sessions and client text handling

This project models the core of a small IoT "edge device" network.

- **Server (`Server.py`).** Authenticates each connecting device against a credentials file and blocks an account after too many failed attempts. It keeps a table of active devices, numbered 1..n in joining order, and rewrites an edge-device log from that table. It also answers the `AED` (list other active devices), `EDG` (generate a data file) and `OUT` (disconnect) commands.
- **Client (`Client.py`).** Reads each server reply, strips a 4-character control header, reacts to the reply, and filters the commands the user types. For `UED` it builds the upload body, and for `UVF` it looks up a peer's address in an `AED` reply (`getDeviceDetails`).

The modules are:

| module | file | what it holds |
|---|---|---|
| `Text` | `text.dfy` | Python's `str.split()`, `split(c)`, `join`, `strip()`, `readlines`, `f"{n}"` and `int()` over `seq<char>`, with round-trip lemmas |
| `Credentials` | `credentials.dfy` | the credentials file as a sequence of `(user, password)` lines; `usernameLookup`, `passwordLookup` |
| `Auth` | `auth.dfy` | `promptLogin` as a transition function `Step` over received claims; `Drive`/`Login` run it; loop methods `Dialogue`/`PasswordDialogue` are proved equal to it |
| `Lockout` | `lockout.dfy` | class `LockoutRegistry`: the `blockedAccounts` set |
| `Registry` | `registry.dfy` | class `DeviceRegistry`: `devicesInfo`, its dict order and `nDevices`; `addNewDevice`, `removeDevice`, `createEdgeDeviceLog` |
| `Responses` | `responses.dfy` | `sendMessage` framing, the `EDG` data file and the `AED` reply |
| `Session` | `session.dfy` | class `ClientSession`: one `ClientThread` (`run`, `promptLogin`, command dispatch) |
| `Client` | `client.dfy` | header handling, reactions to replies, `getDeviceDetails`, the command filter and prompt loop, the `UED` body |
| `Peer` | `peer.dfy` | what the client makes of what the server actually sends |

## Where the server and client disagree

The model follows each program as written in the cases below.

- **No control header.** The client's own comment (`Client.py:66-68`) says every reply carries `RC1;` (a command is required) or `RC0;`. `sendMessage` (`Server.py:266-269`) only appends `'\r'`. So the client cuts the first four characters off every reply, and its flag for "a command is wanted" is never set. `Peer.FirstPromptMisread`, `Peer.UnheadedReplyMisread`, `Peer.UnheadedBlockMisread` and `Peer.UnheadedAedMisread` prove that the server's replies are then not recognised. `Peer.HeadedFirstPromptUnderstood` proves that the same reply would be understood with the header.
- **UDP port is always 0.** A device is registered with port `0` (`Server.py:148`).
- **Only the first character of the address.** The `AED` line shows `deviceIPAddr[0]` (`Server.py:356`).
- **`getDeviceDetails` reads the wrong tokens.** It reads tokens 6 and 10 of an `AED` line (`Client.py:52-53`). `Peer.PeerDetailsAreTimeAndUdp` proves these are the time of day (without its comma) and the word `UDP`.
- **The "no others" test never matches.** The sentinel test compares a line that still carries the frame's `'\r'` (`Peer.LoneDeviceSentinelMissed`).
- **Commands the server does not serve.** The client accepts `UED`, `SCS` and `DTE`, but the server's dispatch answers them "Cannot understand this message" (`Peer.UnservedCommands`).
- **One counter for both phases.** The login failure counter is shared by the username and password phases. A failed username claim that hits the limit blocks the claimed name itself.

## Model

| member | source | states |
|---|---|---|
| `Credentials.UsernameLookup` | Server.py:60-68 | true exactly when some credentials line carries the username |
| `Credentials.PasswordLookup` | Server.py:71-84 | true exactly when the first line carrying the username has that password; later lines for the same name are never consulted |
| `Credentials.PasswordImpliesUsername` | Server.py:71-84 | a password is accepted only for a username that `usernameLookup` finds |
| `Credentials.LaterDuplicatesIgnored` | Server.py:79-83 | appending lines after a username's first line does not change `passwordLookup` for it |
| `Lockout.LockoutRegistry.CheckBlocked` | Server.py:99-106 | answers membership in the blocked set and changes nothing |
| `Lockout.LockoutRegistry.Block` | Server.py:88-90 | the username joins the blocked set |
| `Lockout.LockoutRegistry.Unblock` | Server.py:94-96 | the username leaves the blocked set; it must be in it (`set.remove`) |
| `Lockout.LockoutRegistry.BlockAccount` | Server.py:87-96 | after block, wait and unblock, the username is no longer blocked and the rest of the set is unchanged |
| `Auth.Step` | Server.py:286-341 | one received claim: the counter never resets and grows by at most one; an accepted username carries the counter into the password phase; an already logged-in name is no failure; the limit ends the dialogue only when reached; login needs the correct password and an unblocked account; "max failed attempts", "welcome" and "blocked account" are sent exactly for the three endings, and a retry request exactly when the counter goes up |
| `Auth.Drive` | Server.py:286-341 | the dialogue reads at most the claims given, sends one reply per claim read, and stops only at an ending phase or when the claims run out |
| `Auth.LoginNeedsCredentials` | Server.py:290-326 | a dialogue ends logged in only for a known, not logged-in, not blocked username whose password claim was accepted |
| `Auth.BlockedNeverLogsIn` | Server.py:320-331 | a blocked username never ends logged in, whatever the client sends |
| `Auth.NoLockoutBeforeLimit` | Server.py:286-341 | while the dialogue waits, its counter is the starting counter plus the retry requests sent; when the limit ends it, "max failed attempts" is the last reply and the retry requests number exactly `maxFailAttempts - counter - 1`, so exactly `maxFailAttempts - counter` failures were counted (and at least that many claims read) |
| `Auth.UnknownNamesReachLimit` | Server.py:301-310 | `maxFailAttempts - failed` unknown usernames are answered with exactly `maxFailAttempts - failed - 1` retry requests and then "max failed attempts", ending on the last claim after exactly that many claims |
| `Auth.WrongPasswordsReachLimit` | Server.py:332-341 | `maxFailAttempts - failed` wrong passwords are answered with exactly `maxFailAttempts - failed - 1` retry requests and then "max failed attempts" for the username, after exactly that many claims |
| `Auth.CounterSharedAcrossPhases` | Server.py:278-341 | `k` unknown names followed by a known name leave only `maxFail - k` password attempts |
| `Auth.UnknownPrefix` | Server.py:301-310 | `k` unknown usernames below the limit leave the dialogue asking for a username with `k` more failures and `k` retry requests sent |
| `Auth.LoggedInClaimsAreFree` | Server.py:298-300 | claims of logged-in usernames are answered "username already logged in" and do not count as failures |
| `Auth.BlockedEndsAtOnce` | Server.py:290-297 | a known, blocked username ends the dialogue at its first claim with "blocked account" |
| `Auth.UnblockedCanLogIn` | Server.py:290-327 | a known, unblocked, not logged-in username with its password logs in after two claims |
| `Auth.Login` | Server.py:277-341 | `promptLogin` as a whole: the username request first, then one reply per claim read; it reads no more claims than there are, and stops waiting for a claim only when the claims run out |
| `Auth.Dialogue` | Server.py:277-341 | the two loops of `promptLogin` compute exactly `Login`: the phase reached, the replies sent and the claims read |
| `Auth.PasswordDialogue` | Server.py:312-341 | the password loop, started part-way through, continues exactly as `Drive` does from the password phase |
| `Registry.Without` | Server.py:170 | the dict order after `pop`: the same names except the removed one, still without repeats |
| `Registry.Compacted` | Server.py:171-174 | renumbering keeps the same devices |
| `Registry.AddKeepsDense` | Server.py:140-156 | numbering the new device `n + 1` keeps the numbers exactly 1..n+1 |
| `Registry.AddInRange` | Server.py:143-156 | after an add every number lies in 1..n+1 |
| `Registry.AddUnique` | Server.py:143-156 | after an add no number is held twice |
| `Registry.AddCovers` | Server.py:143-156 | after an add every number in 1..n+1 is held |
| `Registry.RemoveKeepsDense` | Server.py:162-174 | removing a device and shifting the numbers above it down keeps the numbers exactly 1..n-1 |
| `Registry.RemoveInRange` | Server.py:165-174 | after a removal every number lies in 1..n-1 |
| `Registry.RemoveUnique` | Server.py:168-174 | after a removal no number is held twice |
| `Registry.RemoveCovers` | Server.py:165-174 | after a removal every number in 1..n-1 is held |
| `Registry.AddKeepsOrder` | Server.py:156 | a new key goes to the end of the dict's iteration order |
| `Registry.RemoveKeepsOrder` | Server.py:170-174 | `pop` removes the name from the order; renumbering changes neither keys nor addresses |
| `Registry.AddKeepsWellFormed` | Server.py:140-156 | adding preserves density, the order and non-empty addresses |
| `Registry.RemoveKeepsWellFormed` | Server.py:162-174 | removing preserves density, the order and non-empty addresses |
| `Registry.IndexIsInverse` | Server.py:123-128 | for a dense table the seqNum index has keys exactly 1..n, each mapped to the device holding that number |
| `Registry.LogHasOneLinePerDevice` | Server.py:127-136 | the log splits into one line per device, line `i` being `"{i+1}; timestamp; name; address; port"` for device `i+1`, then an empty remainder |
| `Registry.LogLineAt` | Server.py:128-136 | line `i` written by the sorted loop belongs to the device numbered `i + 1` |
| `Registry.LogLineHasNoNewline` | Server.py:135 | a log line adds no line break of its own |
| `Registry.DeviceRegistry.constructor` | Server.py:19-20 | starts with no devices, count 0 and an empty log |
| `Registry.DeviceRegistry.AddNewDevice` | Server.py:140-159 | count + 1; the device is recorded with that number, the timestamp, the address and port 0; it goes last in the order; the log is rewritten; the invariant holds |
| `Registry.DeviceRegistry.RemoveDevice` | Server.py:162-177 | count - 1; the record is gone and every number above it is shifted down; the order drops it; the log is rewritten; the invariant holds |
| `Registry.EdgeDeviceLog` | Server.py:127-136 | the log is empty exactly when there are no devices, and otherwise ends with a line break |
| `Registry.CreateEdgeDeviceLog` | Server.py:115-136 | the text written is the log of the devices in sequence-number order |
| `Registry.WriteLog` | Server.py:127-136 | the sorted loop over the index writes exactly the log |
| `Registry.IndexBySeqNum` | Server.py:122-125 | the index maps each device's number to that device, and every device's number is a key |
| `Registry.ShiftDown` | Server.py:171-174 | the loop yields the table with every number above the removed one decreased by one |
| `Registry.Smallest` | Server.py:128 | the next key taken by `sorted` is the least remaining one |
| `Responses.Frame` | Server.py:266-269 | the message followed by exactly one `'\r'` |
| `Responses.Frames` | Server.py:266-269 | one frame per message, in order |
| `Responses.GenerateData` | Server.py:374-381 | the text written is the numerals 1..amount joined by line breaks, with no final line break; it is empty for an amount below 1 |
| `Responses.GeneratedDataLines` | Server.py:377-381 | for amount n ≥ 1 the file's lines are "1".."n", and each reads back through `int()` as its number |
| `Responses.Counting` | Server.py:377-378 | the numerals 1..n in order |
| `Responses.CountingAt` | Server.py:377-378 | numeral `i` of the count is `f"{i+1}"` |
| `Responses.CountingLine` | Server.py:377-378 | each numeral has no line break and reads back through `int()` as its number |
| `Responses.LoopTextLines` | Server.py:377-378 | the text built after `k` rounds of the loop is the numerals 1..k, each followed by a line break |
| `Responses.LoopTextData` | Server.py:377-381 | dropping the last character of the loop's text leaves exactly the data written, and nothing for an amount below 1 |
| `Responses.LinesOf` | Server.py:351-358 | one `AED` line per listed name, in order |
| `Responses.ActiveEdgeDevices` | Server.py:344-360 | the loop builds exactly `AedReport`: header, then the sentinel for a one-key table, else a line per other device |
| `Responses.AedLinesAreOthers` | Server.py:351-358 | the lines are those of every device in dict order except the caller |
| `Responses.AedReportSentinel` | Server.py:348-349 | with one device the reply's lines are the header and "no other active edge devices" |
| `Responses.AedReportPeers` | Server.py:350-358 | otherwise the reply's lines are the header and one line per other device |
| `Responses.AedLineHasNoNewline` | Server.py:358 | an `AED` line adds no line break of its own |
| `Session.Classify` | Server.py:221-263 | `OUT`, `AED`, `login`, `download` exactly; `EDG` for anything else starting "EDG", with its `split()` words; everything else unrecognised |
| `Session.ClientSession.constructor` | Server.py:192-201 | alive, not authenticated, no username, nothing sent or received |
| `Session.ClientSession.SendMessage` | Server.py:266-269 | appends the framed message to what was sent |
| `Session.ClientSession.PromptLogin` | Server.py:277-341 | reads exactly the claims `Login` consumes and sends its replies; a login authenticates the user and registers the device from the connection's address with the next number, appended last to the table's order; "max failed attempts" runs `blockAccount` on the username being authenticated (the last username claim); on any other ending the login state, the table, its order and count are unchanged |
| `Session.ClientSession.Register` | Server.py:323-326 | the connection is authenticated as the user; the device is added with the next number, the timestamp, the connection's address and port 0, appended last to the table's order; the count grows by one |
| `Session.ClientSession.ActiveEdgeDevices` | Server.py:344-361 | sends the `AED` reply and then "command request" |
| `Session.ClientSession.EdgeDataGeneration` | Server.py:365-390 | when `int()` accepts both arguments it writes `username-fileID.txt` with the numerals 1..amount and replies done; otherwise it writes nothing and replies with the error; "command request" follows either way |
| `Session.ClientSession.Run` | Server.py:203-263 | terminates with the connection no longer alive, the registry still valid |
| `Session.ClientSession.Round` | Server.py:203-263 | one pass of the loop: a connection left open is logged in, so a failed login ends it, and so does the end of the messages; otherwise one more message is received; for an authenticated client `OUT` ends the connection and any other message leaves it alive |
| `Session.ClientSession.Disconnect` | Server.py:222-234 | sends "successfully disconnected"; the connection is no longer alive or authenticated; the device leaves the table, every number above its own shifts down by one, the order drops its name, and the count is one lower |
| `Session.ClientSession.SignOff` | Server.py:225-228 | the reply to `OUT`, then the connection is neither alive nor authenticated |
| `Session.ClientSession.Deregister` | Server.py:231 | the device leaves the table, every number above its own shifts down by one, the order drops its name, and the count drops by one |
| `Session.ClientSession.Answer` | Server.py:236-263 | `AED` sends the active-device reply and a command request; `EDG` with other than three words sends the usage and a command request, otherwise `edgeDataGeneration`'s effect; `download` sends "download filename"; anything else "Cannot understand this message"; only `EDG` writes a file, and liveness, login state, table and lockouts are unchanged |
| `Text.LeadingWord` | Client.py:48 | the longest blank-free prefix |
| `Text.Words` | Server.py:244 | `split()` yields only non-empty blank-free tokens |
| `Text.WordsCons` | Client.py:48 | a token followed by a blank is split off as the first word |
| `Text.Split` | Client.py:41 | `split(c)` yields at least one piece and no piece holds the separator |
| `Text.JoinSplit` | Client.py:41 | joining the pieces with the separator gives the text back |
| `Text.SplitNoSeparator` | Client.py:41 | text without the separator splits into itself |
| `Text.SplitSnoc` | Client.py:41 | text after the last separator is the last piece |
| `Text.SplitJoin` | Client.py:41 | splitting a join of separator-free pieces gives the pieces back |
| `Text.SplitLinesText` | Server.py:378 | line-terminated text splits into its lines and one empty remainder |
| `Text.ReadLines` | Client.py:193 | `readlines()` yields non-empty lines, each but the last ending with a line break |
| `Text.ConcatReadLines` | Client.py:193-194 | concatenating `readlines()` gives the file's text back |
| `Text.Strip` | Client.py:78 | never longer; no blank at either end; unchanged when blank-free |
| `Text.StripIsSlice` | Client.py:78 | the stripped text is one slice `s[i..j]` of the input with only whitespace before `i` and after `j` |
| `Text.ParseInt` | Server.py:370-371 | `int()` accepts exactly a decimal literal with at most one leading sign; a `-` sign gives a value at most 0, otherwise at least 0 |
| `Text.NatToStringParses` | Server.py:370-378 | `int(f"{n}")` is `n` for every natural `n` |
| `Text.DigitsValueOfNat` | Server.py:378 | the digits of `f"{n}"` have value `n` |
| `Client.StripHeader` | Client.py:75 | drops the first four characters, or everything when shorter |
| `Client.HeaderRoundTrip` | Client.py:69-75 | a headed reply is read back as its flag and its payload |
| `Client.ResponseVerb` | Client.py:136-159 | the first verb in the client's order whose response header starts the reply, or none when no header does |
| `Client.FixedReply` | Client.py:84-133 | a fixed login or session reply is neither empty, nor unknown, nor a response block |
| `Client.React` | Client.py:78-163 | "empty" exactly for all-blank replies; a response block is its verb's header followed by the shown body |
| `Client.ReactDispatch` | Client.py:78-163 | a reply that is not blank gets its fixed reaction when it is one of the fixed texts; otherwise it is shown exactly when it starts with a response header, with the first such verb, and is an unknown response exactly when it starts with none |
| `Client.StripBlank` | Client.py:78 | `strip()` is empty exactly for all-blank text |
| `Client.FindDeviceFirstMatch` | Client.py:47-55 | "offline" exactly when every line names another device; otherwise the details of the first line named the target |
| `Client.GetDeviceDetails` | Client.py:34-55 | a reply without a line break raises `IndexError`; the sentinel as the second line means offline; otherwise the lines after the header are searched for the name |
| `Client.Verb` | Client.py:174 | `message[0:3]`: a prefix of at most three characters, exactly three when the message has them |
| `Client.Check` | Client.py:174-222 | refused exactly when the verb is not one of the seven; `UED` sends only with two words and an existing file; `UVF` queries only with three words and an existing file; other verbs pass |
| `Client.UedBody` | Client.py:188-196 | the command, a newline, then the file's text |
| `Client.Verdicts` | Client.py:169-174 | one verdict per typed line, on the stripped line |
| `Client.QueryStep` | Client.py:198-210 | a `UVF` line whose reply was accepted adds its device to the answered queries; any other line leaves them as they are |
| `Client.AnsweredExtend` | Client.py:206-210 | one more query whose reply `getDeviceDetails` accepted keeps every query answered |
| `Client.Refused` | Client.py:174-212 | a line that is refused, or only queries a device whose reply was accepted, extends the prompt by one line with one more `AED` query for `UVF` |
| `Client.InputEnds` | Client.py:168-171 | running out of typed lines ends the prompt with only the queries sent |
| `Client.SendingEnds` | Client.py:186-196 | sending an accepted command ends the prompt, with the command's text last |
| `Client.CrashEnds` | Client.py:206-210 | a query whose reply raises `IndexError` ends the prompt with that query last |
| `Client.PromptLine` | Client.py:172-220 | one typed line: an accepted command is sent and ends the prompt; a `UVF` line sends its `AED` query and ends the prompt if the reply raises; otherwise the prompt goes on one line further |
| `Client.PromptCommand` | Client.py:166-220 | stops at the first accepted line and sends its text last; every line before it was refused or only queried, one `AED` query going out per `UVF` line and each reply accepted; otherwise it ends only when input runs out or on a query whose reply raises `IndexError` |
| `Client.QueriedPrefix` | Client.py:198-210 | the queries of the first `m` lines begin the queries of the first `n` |
| `Client.QueriedAt` | Client.py:198-210 | the query of a `UVF` line is numbered by the queries before it |
| `Client.RaisedIsNotAnswered` | Client.py:206-210 | a query whose reply raised is not among the answered ones |
| `Client.StoppedSameLine` | Client.py:166-220 | two prompts over the same lines and replies stop on the same line |
| `Client.StoppedSameWay` | Client.py:166-220 | stopping on the same line, they stop the same way |
| `Client.StoppedUnique` | Client.py:166-220 | the prompt's outcome is determined by the verdicts and replies: same line, same way, same number of messages, the same messages before the command |
| `Peer.NotBlank` | Client.py:78 | a reply starting with a visible character is not treated as empty |
| `Peer.HeadedFirstPromptUnderstood` | Client.py:71-90 | with the expected header the server's first prompt is read as a username request |
| `Peer.NoFixedReply` | Client.py:84-133 | a reply unlike every fixed reply matches none of them |
| `Peer.Unrecognised` | Client.py:162-163 | such a reply, starting with no verb's letter, is an unknown response |
| `Peer.UnheadedReplyMisread` | Server.py:266-269 | without the header the client sees no command request and misreads the reply as unknown |
| `Peer.FirstPromptMisread` | Server.py:283 | the server's first login prompt, as actually sent, is not understood |
| `Peer.UnheadedBlockMisread` | Client.py:136-163 | a response block sent without the header is not recognised |
| `Peer.OthersListed` | Server.py:350-358 | with another device present the `AED` reply has at least one peer line |
| `Peer.AedReportHeader` | Server.py:346 | the `AED` reply starts with its response header |
| `Peer.UnheadedAedMisread` | Server.py:344-361 | the `AED` reply as sent is an unknown response to the client |
| `Peer.AedLineLayout` | Server.py:358 | an `AED` line is the name and comma, "active since", the timestamp, "IP address:", the address character and comma, "UDP" and the rest, separated by single blanks |
| `Peer.AedLineWords` | Client.py:48-53 | an `AED` line's words: token 0 is the name with its comma, token 6 the time with its comma, token 10 is `UDP` |
| `Peer.AedLineName` | Client.py:48-50 | the name `getDeviceDetails` reads from a peer line is the device's name |
| `Peer.ReceivedLines` | Client.py:41-43 | the lines searched are the other devices' `AED` lines, the last carrying the frame's `'\r'` |
| `Peer.PeerDetailsAreTimeAndUdp` | Client.py:47-54 | for another active device the "address" is its time of day and the "port" is `UDP` |
| `Peer.SelfShowsOffline` | Client.py:47-55 | a device asking for itself gets "offline" |
| `Peer.SentinelName` | Client.py:48-49 | the sentinel line as received is named `n` |
| `Peer.LoneDeviceSentinelMissed` | Client.py:44-55 | for a lone device the only line is the sentinel plus `'\r'`, which fails the sentinel test, so any target but `n` is reported offline by the search |
| `Peer.UnservedCommands` | Server.py:221-263 | the `UED`, `SCS` and `DTE` commands the client sends are unrecognised by the server |

## Left out

- Sockets, threads and locks are not modelled. Each connection is one `ClientSession` over shared registry and lock-out objects. What the client sends is a finite sequence of received texts, one per `recv`, and a closed connection is the end of that sequence. Interleavings between connections are not modelled.
- `recv` message boundaries are not modelled: each reply is taken as one received text.
- A connection the client closes is not modelled as the source behaves. There, `recv` returns the empty text from then on:
  - During login (`Server.py:277-341`), each empty claim is a failure, since no username or password is empty. Once the limit is reached the server sends "max failed attempts" and blocks the empty username, or the username that was being authenticated (`Server.py:306`, `Server.py:337`).
  - After login, each empty message is answered "Cannot understand this message" (`Server.py:261-263`) until a send fails.
  - In the model, the end of the received texts ends the session at once: `Session.ClientSession.Round` and `Session.ClientSession.Run` end the connection there, with no further failures, blocks or replies. Their "no longer alive" results at the end of the received texts hold by this choice.
- `Lockout.LockoutRegistry.BlockAccount`: the ten-second `time.sleep` is not modelled. Only the net effect is stated, so the window in which other connections see the account blocked is not captured. Other connections' blocks enter the login dialogue through the blocked set it consults.
- Files are values:
  - The credentials file is a sequence of `(user, password)` lines; a line with fewer than two words (an `IndexError` in the source) is not modelled.
  - The edge-device log is a string field.
  - Data files are a map from name to text, or a set of names on the client.
- The timestamp is a parameter, assumed to be in the server's `strftime("%d %B %Y %H:%M:%S")` format where a lemma needs that format; `datetime` is not modelled.
- `print` output and the `input()` prompts are not modelled. The lines the user types are a sequence of strings.
- The `UVF` transfer over UDP is a stub in the source and is not modelled; only the `AED` lookup it performs is.
- The Java test client is not part of this model.
- `Client.UedBody`: the data file is opened in text mode (`Client.py:189`), so `readlines()` turns `"\r\n"` and `"\r"` into `"\n"`. The model appends the stored text unchanged, which is the same only for files whose lines end in `"\n"`.
- `Text.ParseInt` accepts ASCII digits, one optional sign and single underscores between digits; Python's `int()` also accepts surrounding whitespace and non-ASCII digits, which are not modelled.
- The client's outer receive loop (`Client.py:57-163`) is modelled reply by reply by `Client.React`, not as a loop over a socket.
- `Session.ClientSession.Run`: states termination and the invariant only; each round is stated by `Session.ClientSession.Round`, and the replies of each branch by `Session.ClientSession.Disconnect`, `Session.ClientSession.PromptLogin` and `Session.ClientSession.Answer`.
- `Session.ClientSession.Round`: states the connection's liveness per message, not the replies; those are stated by the three members it calls for the message.
- `Peer.LoneDeviceSentinelMissed`: does not state that a target named `n` makes the search raise `IndexError`, because the sentinel line has too few words; it states only the result for every other target.
- `Registry.DeviceRegistry.AddNewDevice` requires that the username is not already registered; `promptLogin` guarantees this before calling it. `Registry.DeviceRegistry.RemoveDevice` requires that the username is registered, as `dict` indexing would otherwise raise `KeyError`.
