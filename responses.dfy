/** The replies the server builds for one connection: the `'\r'`
    terminator of `sendMessage`, the payload of `edgeDataGeneration` and
    the peer list of `activeEdgeDevices`. */
module Responses {
  import opened Text
  import opened Registry

  /** `sendMessage`: the message followed by exactly one carriage return. */
  function Frame(m: string): (r: string)
    ensures |r| == |m| + 1 && r[..|m|] == m && r[|m|] == '\r'
  {
    m + "\r"
  }

  /** A run of `sendMessage` calls, one frame per message. */
  function Frames(ms: seq<string>): (r: seq<string>)
    ensures |r| == |ms| && forall i :: 0 <= i < |ms| ==> r[i] == Frame(ms[i])
  {
    if ms == [] then [] else [Frame(ms[0])] + Frames(ms[1..])
  }

  // ---------------------------------------------------------------------
  // EDG: edgeDataGeneration

  /** The numerals "1" .. "n". */
  function Counting(n: nat): (r: seq<string>)
    ensures |r| == n
  {
    if n == 0 then [] else Counting(n - 1) + [NatToString(n)]
  }

  /** Numeral `i` of the count is `i + 1`. */
  lemma {:induction false} CountingAt(n: nat, i: nat)
    requires i < n
    ensures Counting(n)[i] == NatToString(i + 1)
  {
    if i < n - 1 {
      CountingAt(n - 1, i);
    }
  }

  /** The text written to the data file for an amount that `int()`
      accepted: the numerals 1..n, one per line, no newline at the end;
      nothing for an amount below 1. */
  function GeneratedData(amount: int): string {
    if amount >= 1 then Join(Counting(amount), '\n') else []
  }

  /** The text the loop has built after the numerals 1..k. */
  function LoopText(k: nat): string {
    if k == 0 then [] else LoopText(k - 1) + NatToString(k) + "\n"
  }

  /** The loop's text is the numerals, one per line. */
  lemma {:induction false} LoopTextLines(k: nat)
    ensures LoopText(k) == LinesText(Counting(k))
  {
    if k > 0 {
      LoopTextLines(k - 1);
      assert Counting(k)[..k - 1] == Counting(k - 1);
    }
  }

  /** Dropping the loop's last character leaves the data. */
  lemma LoopTextData(amount: int, n: nat)
    requires n == if amount >= 1 then amount else 0
    ensures var t := LoopText(n);
      (if t == [] then [] else t[..|t| - 1]) == GeneratedData(amount)
  {
    if amount >= 1 {
      LoopTextLines(n);
      LinesTextIsJoin(Counting(n));
      var d := GeneratedData(amount);
      assert (d + "\n")[..|d|] == d;
    }
  }

  /** The loop of `edgeDataGeneration`: `fileOutput += f"{i}\n"` for `i` in
      `range(1, amount + 1)`, then the last character dropped. */
  method GenerateData(amount: int) returns (text: string)
    ensures text == GeneratedData(amount)
  {
    var fileOutput: string := [];
    var i := 1;
    while i < amount + 1
      invariant 1 <= i <= if amount >= 1 then amount + 1 else 1
      invariant fileOutput == LoopText(i - 1)
    {
      fileOutput := fileOutput + NatToString(i) + "\n";
      i := i + 1;
    }
    LoopTextData(amount, i - 1);
    text := if fileOutput == [] then [] else fileOutput[..|fileOutput| - 1];
  }

  /** Read back line by line, the generated data is the numerals 1..n, and
      line `i` reads back through `int()` as `i + 1`. */
  lemma GeneratedDataLines(n: int)
    requires n >= 1
    ensures Split(GeneratedData(n), '\n') == Counting(n)
    ensures forall i :: 0 <= i < n ==> ParseInt(Split(GeneratedData(n), '\n')[i]) == Some(i + 1)
  {
    var xs := Counting(n);
    forall i | 0 <= i < n
      ensures '\n' !in xs[i] && ParseInt(xs[i]) == Some(i + 1)
    {
      CountingLine(n, i);
    }
    SplitJoin(xs, '\n');
  }

  /** Numeral `i` of the count holds no newline and reads back as `i + 1`. */
  lemma CountingLine(n: nat, i: nat)
    requires i < n
    ensures '\n' !in Counting(n)[i] && ParseInt(Counting(n)[i]) == Some(i + 1)
  {
    CountingAt(n, i);
    NatToStringParses(i + 1);
    assert !IsDigit('\n');
  }

  // ---------------------------------------------------------------------
  // AED: activeEdgeDevices

  const AED_HEADER := "AED resp: "
  const NO_OTHERS := "no other active edge devices"

  /** One peer line: only the first character of the stored address is
      shown (`deviceIPAddr[0]`). */
  function AedLine(name: string, dev: Device): string
    requires dev.ipAddr != []
  {
    name + ", active since " + dev.timestamp + ", IP address: " + [dev.ipAddr[0]]
      + ", UDP port number: " + IntToString(dev.udpPort)
  }

  /** Every name is a device with an address. */
  ghost predicate Listed(devices: map<string, Device>, names: seq<string>) {
    forall i :: 0 <= i < |names| ==> names[i] in devices && devices[names[i]].ipAddr != []
  }

  /** The peer lines for `names`, in order, one each. */
  function LinesOf(devices: map<string, Device>, names: seq<string>): (r: seq<string>)
    requires Listed(devices, names)
    ensures |r| == |names|
    ensures forall i :: 0 <= i < |r| ==> r[i] == AedLine(names[i], devices[names[i]])
  {
    if names == [] then [] else [AedLine(names[0], devices[names[0]])] + LinesOf(devices, names[1..])
  }

  /** What the loop over the table has added after `order`: a line for
      each name other than the caller's own. */
  function AedLines(devices: map<string, Device>, order: seq<string>, self: string): seq<string>
    requires Listed(devices, order)
  {
    if order == [] then []
    else
      var name := order[|order| - 1];
      AedLines(devices, order[..|order| - 1], self)
        + (if name == self then [] else [AedLine(name, devices[name])])
  }

  /** The whole AED reply for the caller `self`. */
  function AedReport(devices: map<string, Device>, order: seq<string>, self: string): string
    requires Listed(devices, order)
  {
    if |devices| == 1 then AED_HEADER + "\n" + NO_OTHERS
    else Join([AED_HEADER] + AedLines(devices, order, self), '\n')
  }

  /** `activeEdgeDevices`: the header, then either the sentinel line (the
      table has exactly one key) or, in table order, a line for every
      device but the caller's. */
  method ActiveEdgeDevices(devices: map<string, Device>, order: seq<string>, self: string) returns (message: string)
    requires Listed(devices, order)
    ensures message == AedReport(devices, order, self)
  {
    message := AED_HEADER;
    if |devices| == 1 {
      message := message + "\n" + NO_OTHERS;
    } else {
      var i := 0;
      while i < |order|
        invariant 0 <= i <= |order|
        invariant message == Join([AED_HEADER] + AedLines(devices, order[..i], self), '\n')
      {
        var name := order[i];
        assert order[..i + 1][..i] == order[..i];
        assert AedLines(devices, order[..i + 1], self)
          == AedLines(devices, order[..i], self) + (if name == self then [] else [AedLine(name, devices[name])]);
        if name != self {
          var before := [AED_HEADER] + AedLines(devices, order[..i], self);
          var after := before + [AedLine(name, devices[name])];
          assert after[..|after| - 1] == before;
          assert after == [AED_HEADER] + AedLines(devices, order[..i + 1], self);
          assert Join(after, '\n') == Join(before, '\n') + "\n" + AedLine(name, devices[name]);
          message := message + "\n" + AedLine(name, devices[name]);
        } else {
          assert AedLines(devices, order[..i], self) + [] == AedLines(devices, order[..i], self);
        }
        i := i + 1;
      }
      assert order[..i] == order;
    }
  }

  /** Dropping the caller from the order drops its line and nothing else. */
  lemma {:induction false} AedLinesAreOthers(devices: map<string, Device>, order: seq<string>, self: string)
    requires Listed(devices, order)
    ensures Listed(devices, Without(order, self))
    ensures AedLines(devices, order, self) == LinesOf(devices, Without(order, self))
  {
    if order != [] {
      var init := order[..|order| - 1];
      var name := order[|order| - 1];
      AedLinesAreOthers(devices, init, self);
      WithoutSnoc(init, name, self);
      InitLast(order);
      var w := Without(init, self);
      if name != self {
        LinesOfSnoc(devices, w, name);
      } else {
        assert w + [] == w;
      }
    }
  }

  lemma LinesOfSnoc(devices: map<string, Device>, names: seq<string>, name: string)
    requires Listed(devices, names) && name in devices && devices[name].ipAddr != []
    ensures Listed(devices, names + [name])
    ensures LinesOf(devices, names + [name]) == LinesOf(devices, names) + [AedLine(name, devices[name])]
  {
    assert Listed(devices, names + [name]);
  }

  lemma {:induction false} WithoutSnoc(order: seq<string>, x: string, u: string)
    ensures Without(order + [x], u) == Without(order, u) + (if x == u then [] else [x])
  {
    if order != [] {
      assert (order + [x])[1..] == order[1..] + [x];
      WithoutSnoc(order[1..], x, u);
    }
  }

  /** With exactly one key in the table the reply is the header and the
      sentinel line. */
  lemma AedReportSentinel(devices: map<string, Device>, order: seq<string>, self: string)
    requires Listed(devices, order) && |devices| == 1
    ensures Split(AedReport(devices, order, self), '\n') == [AED_HEADER, NO_OTHERS]
  {
    var sentinel := [AED_HEADER, NO_OTHERS];
    assert '\n' !in sentinel[0] && '\n' !in sentinel[1] by {
      ConstantsHaveNoNewline();
    }
    SplitJoin(sentinel, '\n');
  }

  /** Otherwise the caller gets one line per other device: splitting the
      reply at newlines gives the header and then exactly those lines, in
      table order. */
  lemma AedReportPeers(devices: map<string, Device>, order: seq<string>, self: string)
    requires Listed(devices, order) && |devices| != 1
    requires forall d :: d in devices ==> '\n' !in d && '\n' !in devices[d].timestamp && '\n' !in devices[d].ipAddr
    ensures Split(AedReport(devices, order, self), '\n') == [AED_HEADER] + AedLines(devices, order, self)
  {
    AedLinesAreOthers(devices, order, self);
    var others := Without(order, self);
    var xs := [AED_HEADER] + LinesOf(devices, others);
    forall i | 0 <= i < |xs|
      ensures '\n' !in xs[i]
    {
      if i > 0 {
        var name := others[i - 1];
        AedLineHasNoNewline(name, devices[name]);
      } else {
        ConstantsHaveNoNewline();
      }
    }
    SplitJoin(xs, '\n');
  }

  lemma ConstantsHaveNoNewline()
    ensures '\n' !in AED_HEADER && '\n' !in NO_OTHERS
  {
  }

  lemma AedLineHasNoNewline(name: string, dev: Device)
    requires dev.ipAddr != [] && '\n' !in name && '\n' !in dev.timestamp && '\n' !in dev.ipAddr
    ensures '\n' !in AedLine(name, dev)
  {
    var p := IntToString(dev.udpPort);
    assert '\n' !in p;
    var ip := [dev.ipAddr[0]];
    assert '\n' !in ip;
    var fixed := [", active since ", ", IP address: ", ", UDP port number: "];
    assert forall k :: 0 <= k < 3 ==> '\n' !in fixed[k];
    assert AedLine(name, dev) == name + fixed[0] + dev.timestamp + fixed[1] + ip + fixed[2] + p;
  }
}
