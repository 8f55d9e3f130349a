/** The server's device table (`devicesInfo` with the counter `nDevices`)
    and the edge-device log regenerated from it after every change. */
module Registry {
  import opened Text

  /** One registered device: its sequence number, the time it joined, the
      address it connected from and its peer (UDP) port. */
  datatype Device = Device(seqNum: int, timestamp: string, ipAddr: string, udpPort: int)

  /** Some device holds sequence number `s`. */
  ghost predicate HasSeq(m: map<string, Device>, s: int) {
    exists d :: d in m && m[d].seqNum == s
  }

  /** Every number lies in 1..n. */
  ghost predicate InRange(m: map<string, Device>, n: int) {
    forall d :: d in m ==> 1 <= m[d].seqNum <= n
  }

  /** No number is held twice. */
  ghost predicate Unique(m: map<string, Device>) {
    forall d, e :: d in m && e in m && m[d].seqNum == m[e].seqNum ==> d == e
  }

  /** Every number in 1..n is held. */
  ghost predicate Covers(m: map<string, Device>, n: int) {
    forall s :: 1 <= s <= n ==> HasSeq(m, s)
  }

  /** The registry's key invariant: the `n` devices hold exactly the
      sequence numbers 1..n, each once. */
  ghost predicate Dense(m: map<string, Device>, n: int) {
    |m| == n && InRange(m, n) && Unique(m) && Covers(m, n)
  }

  /** The device's number after the one numbered `k` left. */
  function Shifted(dev: Device, k: int): Device {
    if dev.seqNum > k then dev.(seqNum := dev.seqNum - 1) else dev
  }

  /** Every number above `k` moves down by one. */
  function Compacted(m: map<string, Device>, k: int): (r: map<string, Device>)
    ensures r.Keys == m.Keys
  {
    map d | d in m :: Shifted(m[d], k)
  }

  /** No name occurs twice. */
  ghost predicate Distinct(order: seq<string>) {
    forall i, j :: 0 <= i < j < |order| ==> order[i] != order[j]
  }

  /** `order` lists the keys of `m` once each: Python's dict order. */
  ghost predicate Enumerates(order: seq<string>, m: map<string, Device>) {
    && (forall i :: 0 <= i < |order| ==> order[i] in m)
    && (forall d :: d in m ==> d in order)
    && Distinct(order)
  }

  /** `order` without `u`: what `dict.pop` leaves of the iteration order. */
  function Without(order: seq<string>, u: string): (r: seq<string>)
    ensures forall x :: x in r <==> x in order && x != u
    ensures Distinct(order) ==> Distinct(r)
  {
    if order == [] then []
    else if order[0] == u then Without(order[1..], u)
    else
      var r := Without(order[1..], u);
      assert forall x :: x in order[1..] ==> x in order;
      assert Distinct(order) ==> order[0] !in order[1..];
      [order[0]] + r
  }

  /** Adding a device numbered one past the count keeps the numbering dense. */
  lemma AddKeepsDense(m: map<string, Device>, n: int, u: string, dev: Device)
    requires Dense(m, n) && u !in m && dev.seqNum == n + 1
    ensures Dense(m[u := dev], n + 1)
  {
    assert m[u := dev].Keys == m.Keys + {u};
    AddInRange(m, n, u, dev);
    AddUnique(m, n, u, dev);
    AddCovers(m, n, u, dev);
  }

  lemma AddInRange(m: map<string, Device>, n: int, u: string, dev: Device)
    requires InRange(m, n) && 0 <= n && u !in m && dev.seqNum == n + 1
    ensures InRange(m[u := dev], n + 1)
  {
    var m' := m[u := dev];
    assert forall d :: d in m ==> m'[d] == m[d];
  }

  lemma AddUnique(m: map<string, Device>, n: int, u: string, dev: Device)
    requires InRange(m, n) && Unique(m) && u !in m && dev.seqNum == n + 1
    ensures Unique(m[u := dev])
  {
    var m' := m[u := dev];
    assert forall d :: d in m ==> m'[d] == m[d];
  }

  lemma AddCovers(m: map<string, Device>, n: int, u: string, dev: Device)
    requires Covers(m, n) && u !in m && dev.seqNum == n + 1
    ensures Covers(m[u := dev], n + 1)
  {
    var m' := m[u := dev];
    forall s | 1 <= s <= n + 1
      ensures HasSeq(m', s)
    {
      if s == n + 1 {
        assert m'[u].seqNum == s;
      } else {
        assert HasSeq(m, s);
        var d :| d in m && m[d].seqNum == s;
        assert m'[d].seqNum == s;
      }
    }
  }

  /** Removing the device numbered `k` and shifting the numbers above `k`
      down by one leaves the numbers 1..n-1, each once. */
  lemma RemoveKeepsDense(m: map<string, Device>, n: int, u: string)
    requires Dense(m, n) && u in m
    ensures Dense(Compacted(m - {u}, m[u].seqNum), n - 1)
  {
    var rest := m - {u};
    assert rest.Keys == m.Keys - {u};
    assert |rest| == n - 1;
    RemoveInRange(m, n, u);
    RemoveUnique(m, n, u);
    RemoveCovers(m, n, u);
  }

  lemma RemoveInRange(m: map<string, Device>, n: int, u: string)
    requires InRange(m, n) && Unique(m) && u in m
    ensures InRange(Compacted(m - {u}, m[u].seqNum), n - 1)
  {
    var m' := Compacted(m - {u}, m[u].seqNum);
    forall d | d in m'
      ensures 1 <= m'[d].seqNum <= n - 1
    {
      assert m[d].seqNum != m[u].seqNum;
    }
  }

  lemma RemoveUnique(m: map<string, Device>, n: int, u: string)
    requires Unique(m) && u in m
    ensures Unique(Compacted(m - {u}, m[u].seqNum))
  {
    var k := m[u].seqNum;
    var m' := Compacted(m - {u}, k);
    forall d, e | d in m' && e in m' && m'[d].seqNum == m'[e].seqNum
      ensures d == e
    {
      assert m[d].seqNum != k && m[e].seqNum != k;
    }
  }

  lemma RemoveCovers(m: map<string, Device>, n: int, u: string)
    requires Covers(m, n) && Unique(m) && u in m
    ensures Covers(Compacted(m - {u}, m[u].seqNum), n - 1)
  {
    var k := m[u].seqNum;
    var m' := Compacted(m - {u}, k);
    forall s | 1 <= s <= n - 1
      ensures HasSeq(m', s)
    {
      var t := if s < k then s else s + 1;
      assert HasSeq(m, t);
      var d :| d in m && m[d].seqNum == t;
      assert d != u;
      assert m'[d].seqNum == s;
    }
  }

  /** Appending a new name to the order keeps it an enumeration of the
      table with that name added. */
  lemma AddKeepsOrder(m: map<string, Device>, order: seq<string>, u: string, dev: Device)
    requires Enumerates(order, m) && u !in m
    ensures Enumerates(order + [u], m[u := dev])
  {
    var o := order + [u];
    forall i, j | 0 <= i < j < |o|
      ensures o[i] != o[j]
    {
      if j == |order| {
        assert o[i] == order[i];
      }
    }
  }

  /** Removing `u` from the table and from the order keeps the order an
      enumeration of the table, before and after the renumbering. */
  lemma RemoveKeepsOrder(m: map<string, Device>, order: seq<string>, u: string)
    requires Enumerates(order, m) && u in m
    ensures Enumerates(Without(order, u), m - {u})
    ensures Enumerates(Without(order, u), Compacted(m - {u}, m[u].seqNum))
    ensures forall d :: d in m - {u} ==> Compacted(m - {u}, m[u].seqNum)[d].ipAddr == m[d].ipAddr
  {
    var r := Without(order, u);
    forall i | 0 <= i < |r|
      ensures r[i] in m - {u}
    {
      assert r[i] in r;
    }
  }

  /** The table is dense, `order` enumerates it, and every device has an
      address (the client's socket always has one). */
  ghost predicate WellFormed(m: map<string, Device>, order: seq<string>, n: int) {
    Dense(m, n) && Enumerates(order, m) && forall d :: d in m ==> m[d].ipAddr != []
  }

  lemma AddKeepsWellFormed(m: map<string, Device>, order: seq<string>, n: int, u: string, dev: Device)
    requires WellFormed(m, order, n) && u !in m && dev.seqNum == n + 1 && dev.ipAddr != []
    ensures WellFormed(m[u := dev], order + [u], n + 1)
  {
    AddKeepsDense(m, n, u, dev);
    AddKeepsOrder(m, order, u, dev);
  }

  lemma RemoveKeepsWellFormed(m: map<string, Device>, order: seq<string>, n: int, u: string)
    requires WellFormed(m, order, n) && u in m
    ensures WellFormed(Compacted(m - {u}, m[u].seqNum), Without(order, u), n - 1)
  {
    RemoveKeepsOrder(m, order, u);
    RemoveKeepsDense(m, n, u);
  }

  /** In a dense table the index built by `IndexBySeqNum` has exactly the
      keys 1..n, and maps each number to the device holding it. */
  lemma IndexIsInverse(m: map<string, Device>, n: int, seqNums: map<int, string>)
    requires Dense(m, n)
    requires forall s :: s in seqNums ==> seqNums[s] in m && m[seqNums[s]].seqNum == s
    requires forall d :: d in m ==> m[d].seqNum in seqNums
    ensures forall s :: s in seqNums <==> 1 <= s <= n
    ensures forall s :: s in seqNums ==> HasSeq(m, s) && seqNums[s] == Holder(m, s)
  {
    forall s | 1 <= s <= n
      ensures s in seqNums
    {
      assert HasSeq(m, s);
      var d :| d in m && m[d].seqNum == s;
    }
  }

  /** The device holding sequence number `s`. */
  ghost function Holder(m: map<string, Device>, s: int): (d: string)
    requires HasSeq(m, s)
    ensures d in m && m[d].seqNum == s
  {
    var d :| d in m && m[d].seqNum == s; d
  }

  /** One line of the edge-device log, without its newline. */
  function LogLine(seqNum: int, name: string, dev: Device): string {
    IntToString(seqNum) + "; " + dev.timestamp + "; " + name + "; " + dev.ipAddr + "; " + IntToString(dev.udpPort)
  }

  /** The log lines of the devices numbered 1..k, in that order. */
  ghost function LogLines(m: map<string, Device>, n: int, k: nat): (r: seq<string>)
    requires Dense(m, n) && k <= n
    ensures |r| == k
  {
    if k == 0 then [] else LogLines(m, n, k - 1) + [LogLine(k, Holder(m, k), m[Holder(m, k)])]
  }

  lemma LogLinesSnoc(m: map<string, Device>, n: int, k: nat)
    requires Dense(m, n) && 1 <= k <= n
    ensures var d := Holder(m, k);
      LinesText(LogLines(m, n, k)) == LinesText(LogLines(m, n, k - 1)) + LogLine(k, d, m[d]) + "\n"
  {
    var xs := LogLines(m, n, k);
    assert xs[..|xs| - 1] == LogLines(m, n, k - 1);
  }

  /** The whole edge-device log of a dense registry. */
  ghost function EdgeDeviceLog(m: map<string, Device>, n: int): (r: string)
    requires Dense(m, n) && n >= 0
    ensures r == [] <==> n == 0
    ensures r != [] ==> r[|r| - 1] == '\n'
  {
    LinesTextEnds(LogLines(m, n, n));
    LinesText(LogLines(m, n, n))
  }

  /** The log has one line per device, line `i` for the device numbered
      `i + 1`, and nothing after the last newline. */
  lemma LogHasOneLinePerDevice(m: map<string, Device>, n: int)
    requires Dense(m, n) && n >= 1
    requires forall d :: d in m ==> '\n' !in d && '\n' !in m[d].timestamp && '\n' !in m[d].ipAddr
    ensures var lines := Split(EdgeDeviceLog(m, n), '\n');
      && |lines| == n + 1 && lines[n] == []
      && forall i :: 0 <= i < n ==>
           exists d :: d in m && m[d].seqNum == i + 1 && lines[i] == LogLine(i + 1, d, m[d])
  {
    var xs := LogLines(m, n, n);
    forall i | 0 <= i < n
      ensures '\n' !in xs[i]
      ensures var d := Holder(m, i + 1); xs[i] == LogLine(i + 1, d, m[d])
    {
      LogLineAt(m, n, n, i);
      var d := Holder(m, i + 1);
      LogLineHasNoNewline(i + 1, d, m[d]);
    }
    SplitLinesText(xs);
    var lines := xs + [[]];
    forall i | 0 <= i < n
      ensures exists d :: d in m && m[d].seqNum == i + 1 && lines[i] == LogLine(i + 1, d, m[d])
    {
      var d := Holder(m, i + 1);
      assert lines[i] == xs[i];
    }
  }

  lemma {:induction false} LogLineAt(m: map<string, Device>, n: int, k: nat, i: nat)
    requires Dense(m, n) && k <= n && i < k
    ensures var d := Holder(m, i + 1); LogLines(m, n, k)[i] == LogLine(i + 1, d, m[d])
  {
    if i < k - 1 {
      LogLineAt(m, n, k - 1, i);
    }
  }

  lemma LogLineHasNoNewline(s: int, name: string, dev: Device)
    requires '\n' !in name && '\n' !in dev.timestamp && '\n' !in dev.ipAddr
    ensures '\n' !in LogLine(s, name, dev)
  {
    var a := IntToString(s);
    var b := IntToString(dev.udpPort);
    assert '\n' !in a && '\n' !in b;
  }

  /** `devicesInfo` and `nDevices`, with the log file's text. */
  class DeviceRegistry {
    var devices: map<string, Device>
    var order: seq<string>
    var nDevices: int
    var log: string

    ghost predicate Valid()
      reads this
    {
      WellFormed(devices, order, nDevices) && log == EdgeDeviceLog(devices, nDevices)
    }

    /** The server starts with no devices and an empty log. */
    constructor ()
      ensures Valid() && devices == map[] && order == [] && nDevices == 0 && log == []
    {
      devices, order, nDevices, log := map[], [], 0, [];
    }

    /** `addNewDevice`: the device gets the number one past the current
        count; its peer port is always 0; the log is rewritten. */
    method AddNewDevice(username: string, ipAddr: string, timestamp: string)
      requires Valid() && username !in devices && ipAddr != []
      modifies this
      ensures Valid()
      ensures nDevices == old(nDevices) + 1
      ensures devices == old(devices)[username := Device(nDevices, timestamp, ipAddr, 0)]
      ensures order == old(order) + [username]
    {
      var count := nDevices + 1;
      var seqNum := count;
      var added := devices[username := Device(seqNum, timestamp, ipAddr, 0)];
      var newOrder := order + [username];
      AddKeepsWellFormed(devices, order, nDevices, username, added[username]);
      var newLog := CreateEdgeDeviceLog(added, newOrder, count);
      devices, order, nDevices, log := added, newOrder, count, newLog;
    }

    /** `removeDevice`: the counter drops by one, the record goes, every
        number above the removed one moves down by one, and the log is
        rewritten. */
    method RemoveDevice(username: string)
      requires Valid() && username in devices
      modifies this
      ensures Valid()
      ensures nDevices == old(nDevices) - 1
      ensures devices == Compacted(old(devices) - {username}, old(devices)[username].seqNum)
      ensures order == Without(old(order), username)
    {
      var count := nDevices - 1;
      var removed := devices[username].seqNum;
      var remaining := devices - {username};
      var newOrder := Without(order, username);
      RemoveKeepsWellFormed(devices, order, nDevices, username);
      var shifted := ShiftDown(remaining, newOrder, removed);
      var newLog := CreateEdgeDeviceLog(shifted, newOrder, count);
      devices, order, nDevices, log := shifted, newOrder, count, newLog;
    }
  }

  /** `createEdgeDeviceLog`: inverts the table into a map from sequence
      number to device name, then writes one line per number in
      ascending order. */
  method CreateEdgeDeviceLog(m: map<string, Device>, order: seq<string>, ghost n: int) returns (text: string)
    requires Dense(m, n) && Enumerates(order, m)
    ensures text == EdgeDeviceLog(m, n)
  {
    var seqNums := IndexBySeqNum(m, order);
    IndexIsInverse(m, n, seqNums);
    text := WriteLog(m, n, seqNums);
  }

  /** The second loop of `createEdgeDeviceLog`: the index's numbers in
      ascending order, one log line each. */
  method WriteLog(m: map<string, Device>, ghost n: int, seqNums: map<int, string>) returns (text: string)
    requires Dense(m, n)
    requires forall s :: s in seqNums <==> 1 <= s <= n
    requires forall s :: s in seqNums ==> HasSeq(m, s) && seqNums[s] == Holder(m, s)
    ensures text == EdgeDeviceLog(m, n)
  {
    var pending := seqNums.Keys;
    var next := 1;
    text := [];
    while pending != {}
      invariant 1 <= next <= n + 1
      invariant forall s :: s in pending <==> next <= s <= n
      invariant text == LinesText(LogLines(m, n, next - 1))
      decreases |pending|
    {
      var s := Smallest(pending);
      assert next in pending;
      assert s == next;
      var name := seqNums[s];
      LogLinesSnoc(m, n, next);
      text := text + LogLine(s, name, m[name]) + "\n";
      RangeStep(pending, next, n);
      pending := pending - {s};
      next := next + 1;
    }
    assert next !in pending;
    assert next == n + 1;
  }

  /** The first loop of `createEdgeDeviceLog`: sequence number to name. */
  method IndexBySeqNum(devices: map<string, Device>, order: seq<string>) returns (seqNums: map<int, string>)
    requires Enumerates(order, devices)
    ensures forall s :: s in seqNums ==> seqNums[s] in devices && devices[seqNums[s]].seqNum == s
    ensures forall d :: d in devices ==> devices[d].seqNum in seqNums
  {
    seqNums := map[];
    var i := 0;
    while i < |order|
      invariant 0 <= i <= |order|
      invariant forall s :: s in seqNums ==> seqNums[s] in devices && devices[seqNums[s]].seqNum == s
      invariant forall j :: 0 <= j < i ==> devices[order[j]].seqNum in seqNums
    {
      seqNums := seqNums[devices[order[i]].seqNum := order[i]];
      i := i + 1;
    }
    forall d | d in devices
      ensures devices[d].seqNum in seqNums
    {
      assert d in order;
      var j :| 0 <= j < |order| && order[j] == d;
    }
  }

  /** The loop of `removeDevice`: in dict order, every device numbered
      above `removed` moves down by one. */
  method ShiftDown(devices: map<string, Device>, order: seq<string>, removed: int) returns (r: map<string, Device>)
    requires Enumerates(order, devices)
    ensures r == Compacted(devices, removed)
  {
    r := devices;
    var i := 0;
    while i < |order|
      invariant 0 <= i <= |order|
      invariant r.Keys == devices.Keys
      invariant forall d :: d in devices ==>
                  r[d] == if d in order[..i] then Shifted(devices[d], removed) else devices[d]
    {
      var d := order[i];
      assert d !in order[..i];
      if r[d].seqNum > removed {
        r := r[d := r[d].(seqNum := r[d].seqNum - 1)];
      }
      assert order[..i + 1] == order[..i] + [d];
      i := i + 1;
    }
    assert order[..i] == order;
  }

  lemma RangeStep(p: set<int>, lo: int, hi: int)
    requires forall x :: x in p <==> lo <= x <= hi
    ensures forall x :: x in p - {lo} <==> lo + 1 <= x <= hi
  {
  }

  lemma NonEmptyHasElement(s: set<int>)
    requires s != {}
    ensures exists x :: x in s
  {
    assert (forall x :: x !in s) ==> s == {};
  }

  /** The smallest element of a finite set of numbers (the first key that
      `sorted` yields). */
  method Smallest(s: set<int>) returns (m: int)
    requires s != {}
    ensures m in s && forall x :: x in s ==> m <= x
  {
    NonEmptyHasElement(s);
    m :| m in s;
    var rest := s - {m};
    while rest != {}
      invariant m in s && rest <= s
      invariant forall x :: x in s && x !in rest ==> m <= x
      decreases rest
    {
      NonEmptyHasElement(rest);
      var y :| y in rest;
      if y < m {
        m := y;
      }
      rest := rest - {y};
    }
  }
}
