/** One connection on the server (`ClientThread`): the login dialogue,
    then the command loop of `run`. The bytes the client sends are the
    sequence `inbox`, one element per `recv`; what the server sends is
    the sequence `sent`, one element per `sendMessage`. */
module Session {
  import opened Text
  import opened Auth
  import opened Registry
  import opened Lockout
  import opened Responses
  import Credentials

  const DISCONNECTED := "successfully disconnected"
  const COMMAND_REQUEST := "command request"
  const DOWNLOAD_FILENAME := "download filename"
  const NOT_UNDERSTOOD := "Cannot understand this message"
  const EDG_USAGE := "EDG resp: \nEDG command requires fileID and dataAmount as arguments."
  const EDG_DONE := "EDG resp: \nData generation done."
  const EDG_NOT_INTEGERS := "EDG resp: \nThe fileID or dataAmount are not integers, you need to specify the parameter as integers."

  /** What `run` makes of one received message. */
  datatype Request = Out | Aed | Edg(args: seq<string>) | LoginAgain | Download | Unrecognised

  /** The dispatch chain of `run`: four exact words, and any message that
      starts with "EDG" (`re.match("^EDG.*")`), whose arguments are its
      whitespace-separated tokens. */
  function Classify(message: string): (r: Request)
    ensures r.Edg? <==> message != "OUT" && message != "AED" && |message| >= 3 && message[..3] == "EDG"
    ensures r.Edg? ==> r.args == Words(message)
    ensures r == Unrecognised <==>
      message !in ["OUT", "AED", "login", "download"] && !(|message| >= 3 && message[..3] == "EDG")
  {
    if message == "OUT" then Out
    else if message == "AED" then Aed
    else if |message| >= 3 && message[..3] == "EDG" then Edg(Words(message))
    else if message == "login" then LoginAgain
    else if message == "download" then Download
    else Unrecognised
  }

  /** The name of the file `edgeDataGeneration` writes. */
  function DataFileName(username: string, fileID: string): string {
    username + "-" + fileID + ".txt"
  }

  class ClientSession {
    const registry: DeviceRegistry
    const lockout: LockoutRegistry
    const creds: seq<Credentials.Cred>
    const maxFail: int
    /** `clientAddress[0]`: the address the client connected from. */
    const address: string
    const inbox: seq<string>
    var pos: nat
    var sent: seq<string>
    /** The data files written by EDG, by name. */
    var files: map<string, string>
    var alive: bool
    var authenticated: bool
    var username: string

    ghost predicate Valid()
      reads this`pos, this`authenticated, this`username, registry
    {
      && registry.Valid()
      && address != []
      && pos <= |inbox|
      && (authenticated ==> username in registry.devices)
    }

    /** `ClientThread.__init__`: not authenticated, no username, alive. */
    constructor (registry: DeviceRegistry, lockout: LockoutRegistry, creds: seq<Credentials.Cred>,
                 maxFail: int, address: string, inbox: seq<string>)
      requires registry.Valid() && address != []
      ensures Valid()
      ensures this.registry == registry && this.lockout == lockout && this.creds == creds
      ensures this.maxFail == maxFail && this.address == address && this.inbox == inbox
      ensures pos == 0 && sent == [] && files == map[]
      ensures alive && !authenticated && username == []
    {
      this.registry := registry;
      this.lockout := lockout;
      this.creds := creds;
      this.maxFail := maxFail;
      this.address := address;
      this.inbox := inbox;
      pos, sent, files := 0, [], map[];
      alive, authenticated, username := true, false, [];
    }

    /** `sendMessage`. */
    method SendMessage(m: string)
      modifies this`sent
      ensures sent == old(sent) + [Frame(m)]
    {
      sent := sent + [Frame(m)];
    }

    /** What the login dialogue consults. */
    function LoginEnv(): Env
      reads this, registry, lockout
    {
      Env(creds, registry.devices.Keys, lockout.blocked, maxFail)
    }

    /** What `promptLogin` leaves behind. It reads exactly the claims the
        dialogue consumes and sends its replies. Success registers the
        device (last in the table's order) and marks the connection
        authenticated as that user; reaching the failure limit runs
        `blockAccount` on the username being authenticated (the last
        username claim); any other ending leaves the
        connection and the tables as they were. */
    twostate predicate LoginEffect(timestamp: string)
      requires old(pos) <= |inbox|
      reads this, registry, lockout
    {
      var t := Login(old(LoginEnv()), inbox[old(pos)..]);
      && pos == old(pos) + t.consumed
      && sent == old(sent) + Frames(t.replies)
      && (t.phase.LoggedIn? ==>
            && authenticated && username == t.phase.user
            && registry.devices == old(registry.devices)[username := Device(registry.nDevices, timestamp, address, 0)]
            && registry.order == old(registry.order) + [username]
            && registry.nDevices == old(registry.nDevices) + 1)
      && (!t.phase.LoggedIn? ==>
            && authenticated == old(authenticated) && username == old(username)
            && registry.devices == old(registry.devices) && registry.order == old(registry.order)
            && registry.nDevices == old(registry.nDevices))
      && (t.phase.MaxFailed? ==> lockout.blocked == old(lockout.blocked) - {t.phase.user})
      && (!t.phase.MaxFailed? ==> lockout.blocked == old(lockout.blocked))
    }

    /** `promptLogin`: the dialogue over the messages not yet received,
        then its effect on the server. */
    method PromptLogin(timestamp: string)
      requires Valid()
      modifies this`pos, this`sent, this`authenticated, this`username, registry, lockout
      ensures Valid() && old(pos) <= pos && LoginEffect(timestamp)
    {
      var env := LoginEnv();
      var claims := inbox[pos..];
      var t := Dialogue(env, claims);
      sent := sent + Frames(t.replies);
      pos := pos + t.consumed;
      if t.phase.LoggedIn? {
        LoginNeedsCredentials(env, AwaitingUsername(0), claims);
        Register(t.phase.user, timestamp);
      } else if t.phase.MaxFailed? {
        lockout.BlockAccount(t.phase.user);
      }
    }

    /** The successful end of `promptLogin`: the connection is
        authenticated as `user` and the device is registered from the
        connection's address. */
    method Register(user: string, timestamp: string)
      requires Valid() && user !in registry.devices
      modifies this`authenticated, this`username, registry
      ensures Valid() && authenticated && username == user
      ensures registry.devices == old(registry.devices)[user := Device(registry.nDevices, timestamp, address, 0)]
      ensures registry.order == old(registry.order) + [user]
      ensures registry.nDevices == old(registry.nDevices) + 1
    {
      authenticated := true;
      username := user;
      registry.AddNewDevice(user, address, timestamp);
    }

    /** `activeEdgeDevices`, then the command request. */
    method ActiveEdgeDevices()
      requires Valid()
      modifies this`sent
      ensures sent == old(sent)
        + [Frame(AedReport(registry.devices, registry.order, username)), Frame(COMMAND_REQUEST)]
    {
      var message := Responses.ActiveEdgeDevices(registry.devices, registry.order, username);
      SendMessage(message);
      SendMessage(COMMAND_REQUEST);
    }

    /** What `edgeDataGeneration` leaves behind: when `int()` accepts both
        arguments the file `username-fileID.txt` holds the numerals
        1..amount and the reply says so; otherwise no file is written and
        the reply is the "not integers" error. Either way a command
        request follows. */
    twostate predicate EdgEffect(fileID: string, dataAmount: string)
      reads this
    {
      && (ParseInt(fileID).Some? && ParseInt(dataAmount).Some? ==>
            && files == old(files)[DataFileName(username, fileID) := GeneratedData(ParseInt(dataAmount).value)]
            && sent == old(sent) + [Frame(EDG_DONE), Frame(COMMAND_REQUEST)])
      && (ParseInt(fileID).None? || ParseInt(dataAmount).None? ==>
            && files == old(files)
            && sent == old(sent) + [Frame(EDG_NOT_INTEGERS), Frame(COMMAND_REQUEST)])
    }

    /** `edgeDataGeneration`. */
    method EdgeDataGeneration(fileID: string, dataAmount: string)
      modifies this`sent, this`files
      ensures EdgEffect(fileID, dataAmount)
    {
      var fileIDInt := ParseInt(fileID);
      var dataAmountInt := ParseInt(dataAmount);
      if fileIDInt.Some? && dataAmountInt.Some? {
        var fileOutput := GenerateData(dataAmountInt.value);
        files := files[DataFileName(username, fileID) := fileOutput];
        SendMessage(EDG_DONE);
        SendMessage(COMMAND_REQUEST);
      } else {
        SendMessage(EDG_NOT_INTEGERS);
        SendMessage(COMMAND_REQUEST);
      }
    }

    /** `run`: log in first if not yet authenticated (a failed login ends
        the connection), then receive and dispatch one message per round
        until OUT. When the client has nothing more to send the
        connection is closed and the loop ends. */
    method Run(timestamp: string)
      requires Valid()
      modifies this, registry, lockout
      ensures Valid() && !alive
    {
      while alive
        invariant Valid()
        decreases alive, |inbox| - pos
      {
        Round(timestamp);
      }
    }

    /** One pass of `run`'s loop: a failed login or the end of the
        client's messages ends the connection; otherwise one message is
        received and dispatched. */
    method Round(timestamp: string)
      requires Valid() && alive
      modifies this, registry, lockout
      ensures !alive || old(pos) < pos
      // a connection that is still open is logged in: a failed first login ends it
      ensures alive ==> authenticated
      ensures old(authenticated) && old(pos) < |inbox| && Classify(inbox[old(pos)]) != Out ==> alive
      ensures old(authenticated) && old(pos) < |inbox| && Classify(inbox[old(pos)]) == Out ==> !alive
      ensures Valid()
    {
      if !authenticated {
        PromptLogin(timestamp);
        if !authenticated {
          alive := false;
          return;
        }
      }
      if pos == |inbox| {
        alive := false;
        return;
      }
      var message := inbox[pos];
      pos := pos + 1;
      var request := Classify(message);
      if request == Out {
        Disconnect();
      } else if request == LoginAgain {
        PromptLogin(timestamp);
      } else {
        Answer(request);
      }
    }

    /** The OUT command: the reply, then the connection is no longer alive
        or authenticated and the device leaves the registry. */
    method Disconnect()
      requires Valid() && authenticated
      modifies this`sent, this`alive, this`authenticated, registry
      ensures sent == old(sent) + [Frame(DISCONNECTED)] && !alive && !authenticated
      ensures registry.devices == Compacted(old(registry.devices) - {username}, old(registry.devices)[username].seqNum)
      ensures registry.order == Without(old(registry.order), username)
      ensures registry.nDevices == old(registry.nDevices) - 1
      ensures registry.Valid() && Valid()
    {
      SignOff();
      Deregister();
    }

    /** The reply to OUT, then the thread's loop stops and the client is
        no longer authenticated. */
    method SignOff()
      modifies this`sent, this`alive, this`authenticated
      ensures sent == old(sent) + [Frame(DISCONNECTED)] && !alive && !authenticated
    {
      SendMessage(DISCONNECTED);
      alive := false;
      authenticated := false;
    }

    /** `removeDevice(self.username)`. */
    method Deregister()
      requires registry.Valid() && username in registry.devices
      modifies registry
      ensures registry.Valid()
      ensures registry.devices == Compacted(old(registry.devices) - {username}, old(registry.devices)[username].seqNum)
      ensures registry.order == Without(old(registry.order), username)
      ensures registry.nDevices == old(registry.nDevices) - 1
    {
      registry.RemoveDevice(username);
    }

    /** The replies to the requests that only answer: AED lists the
        active devices, EDG generates a data file or explains its usage,
        `download` asks for a file name, and anything else is not
        understood. Only EDG writes a file. */
    twostate predicate Answered(request: Request)
      reads this, registry
    {
      && (request == Aed ==>
            && files == old(files)
            && Listed(registry.devices, registry.order)
            && sent == old(sent)
              + [Frame(AedReport(registry.devices, registry.order, username)), Frame(COMMAND_REQUEST)])
      && (request.Edg? && |request.args| != 3 ==>
            files == old(files) && sent == old(sent) + [Frame(EDG_USAGE), Frame(COMMAND_REQUEST)])
      && (request.Edg? && |request.args| == 3 ==> EdgEffect(request.args[1], request.args[2]))
      && (request == Download ==> files == old(files) && sent == old(sent) + [Frame(DOWNLOAD_FILENAME)])
      && (request == Unrecognised ==> files == old(files) && sent == old(sent) + [Frame(NOT_UNDERSTOOD)])
    }

    /** The branches of `run` that only reply: the connection, the login
        state, the device table and the lockouts stay as they are. */
    method Answer(request: Request)
      requires Valid() && request != Out && request != LoginAgain
      modifies this`sent, this`files
      ensures Answered(request)
      ensures alive == old(alive) && pos == old(pos)
      ensures authenticated == old(authenticated) && username == old(username)
      ensures registry.devices == old(registry.devices) && registry.order == old(registry.order)
      ensures registry.nDevices == old(registry.nDevices) && lockout.blocked == old(lockout.blocked)
    {
      match request {
        case Aed =>
          ActiveEdgeDevices();
        case Edg(args) =>
          if |args| != 3 {
            SendMessage(EDG_USAGE);
            SendMessage(COMMAND_REQUEST);
          } else {
            EdgeDataGeneration(args[1], args[2]);
          }
        case Download =>
          SendMessage(DOWNLOAD_FILENAME);
        case Unrecognised =>
          SendMessage(NOT_UNDERSTOOD);
      }
    }
  }
}
