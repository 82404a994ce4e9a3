/** The command protocol to the two controllers (SDM_logic/command_manager.py):
    line framing, which link each verb goes to, the sensor-reply loop, and
    the connection check at start-up. Each serial exchange is replaced by
    its outcome. */
module Commands {
  import opened Values
  import opened Text
  import opened Decimal
  import opened Bins
  import PortFinder

  /** The two serial links: `arduino1` drives the compaction stepper,
      `arduino2` the sorting mechanism and the fill sensors. */
  datatype Link = Stepper | Mechanism

  /** Everything the manager can ask a controller to do. */
  datatype Verb = Open(bin: BinCode) | GetData | ResetDisk | Flush | Restart | Compress

  /** The command word sent for each verb. */
  function Wire(v: Verb): (w: string)
    ensures |w| > 0
  {
    match v
    case Open(b) => Code(b)
    case GetData => "GETD"
    case ResetDisk => "disk_reset"
    case Flush => "FLUSH"
    case Restart => "RESTART"
    case Compress => "COMPRESS"
  }

  /** Which link carries each verb: only compaction goes to the stepper. */
  function Route(v: Verb): (l: Link)
    ensures l == Stepper <==> v == Compress
  {
    if v.Compress? then Stepper else Mechanism
  }

  /** Reads a command word back: its length and first character identify
      it among the nine words. */
  function VerbOf(w: string): (r: Option<Verb>)
    ensures r.Some? ==> |w| > 0
  {
    if |w| == 0 then None
    else
      var n := |w|;
      var c := w[0];
      if n == 2 && c == 'B' then Some(Open(BR))
      else if n == 3 && c == 'B' then Some(Open(BNR))
      else if n == 3 && c == 'N' then Some(Open(NBR))
      else if n == 4 && c == 'N' then Some(Open(NBNR))
      else if n == 4 && c == 'G' then Some(GetData)
      else if n == 10 && c == 'd' then Some(ResetDisk)
      else if n == 5 && c == 'F' then Some(Flush)
      else if n == 7 && c == 'R' then Some(Restart)
      else if n == 8 && c == 'C' then Some(Compress)
      else None
  }

  /** Every command word reads back as its verb, so no two verbs share a
      word and a controller can tell every request apart. */
  lemma WireReadsBack(v: Verb)
    ensures VerbOf(Wire(v)) == Some(v)
  {
  }

  lemma WireInjective(v1: Verb, v2: Verb)
    ensures Wire(v1) == Wire(v2) ==> v1 == v2
  {
    WireReadsBack(v1);
    WireReadsBack(v2);
  }

  // ---------------------------------------------------------------------
  // send_command

  /** The bytes written for a command: the word and one line feed. */
  function Frame(cmd: string): (f: string)
    ensures |f| == |cmd| + 1 && f[..|cmd|] == cmd && f[|cmd|] == '\n'
  {
    cmd + "\n"
  }

  /** How one write-then-read exchange went: the line read back (before
      stripping; empty when the read timed out), a `SerialException`, or
      any other exception (such as a reply that is not UTF-8). */
  datatype Exchange = Replied(raw: string) | SerialFault | OtherFault

  /** What `send_command` does: the frame written and the stripped reply;
      `None` on a serial fault; `Err` for any other exception, which
      propagates to the caller. */
  datatype Sent = Sent(written: string, reply: Option<string>)

  function SendCommand(cmd: string, ex: Exchange): (r: Result<Sent, string>)
    ensures r.Ok? ==> r.value.written == Frame(cmd)
    ensures ex.Replied? ==> r.Ok? && r.value.reply == Some(Strip(ex.raw))
    ensures ex.SerialFault? ==> r.Ok? && r.value.reply.None?
    ensures r.Err? <==> ex.OtherFault?
  {
    match ex
    case Replied(raw) => Ok(Sent(Frame(cmd), Some(Strip(raw))))
    case SerialFault => Ok(Sent(Frame(cmd), None))
    case OtherFault => Err("exception from the link")
  }

  /** Stripping a frame removes exactly the line feed the framing added,
      when the command has no surrounding whitespace of its own. */
  lemma FrameStrips(cmd: string)
    ensures Strip(Frame(cmd)) == Strip(cmd)
  {
    assert AllSpace("\n");
    StripEndAppend(cmd, "\n");
  }

  /** Every command word survives framing: the controller strips the line
      feed and reads back the verb. */
  lemma FrameRoundTrip(v: Verb)
    ensures VerbOf(Strip(Frame(Wire(v)))) == Some(v)
    ensures Route(v) == Stepper ==> Wire(v) == "COMPRESS"
  {
    FrameStrips(Wire(v));
    WireTrimmed(v);
    StripTrimmed(Wire(v));
    WireReadsBack(v);
  }

  lemma WireTrimmed(v: Verb)
    ensures Trimmed(Wire(v))
  {
    var w := Wire(v);
    assert !IsSpace(w[0]);
    assert !IsSpace(w[|w| - 1]);
  }

  /** One `open_*`, `reset_disk`, `flush_bins`, `restart_mechanism` or
      `run_stepper` call: the link used, the frame written and the reply. */
  datatype Issued = Issued(link: Link, written: string, reply: Option<string>)

  function Issue(v: Verb, ex: Exchange): (r: Result<Issued, string>)
    ensures r.Ok? ==> r.value.link == Route(v) && VerbOf(Strip(r.value.written)) == Some(v)
    ensures r.Ok? ==> (ex.Replied? <==> r.value.reply.Some?)
    ensures r.Err? <==> ex.OtherFault?
  {
    FrameRoundTrip(v);
    match SendCommand(Wire(v), ex)
    case Ok(s) =>
      assert s.written == Frame(Wire(v));
      Ok(Issued(Route(v), s.written, s.reply))
    case Err(e) => Err(e)
  }

  // ---------------------------------------------------------------------
  // get_sensor_data

  const FieldSep := ","

  /** `[int(x) for x in response.split(',')]`: every field must parse. */
  function ParseFields(fields: seq<string>): (r: Option<seq<int>>)
    ensures r.Some? ==> |r.value| == |fields|
    ensures r.Some? ==> forall i :: 0 <= i < |fields| ==> ParseInt(fields[i]) == Some(r.value[i])
    ensures r.None? ==> exists i :: 0 <= i < |fields| && ParseInt(fields[i]).None?
  {
    var ps := ParseEach(fields);
    assert forall i :: 0 <= i < |fields| ==> ps[i] == ParseInt(fields[i]);
    AllPresent(ps)
  }

  /** `int()` of each field, failures included. */
  function ParseEach(fields: seq<string>): (ps: seq<Option<int>>)
    ensures |ps| == |fields|
    ensures forall i :: 0 <= i < |fields| ==> ps[i] == ParseInt(fields[i])
  {
    seq(|fields|, i requires 0 <= i < |fields| => ParseInt(fields[i]))
  }

  /** The values when every entry is present; `None` at the first absent one. */
  function AllPresent(ps: seq<Option<int>>): (r: Option<seq<int>>)
    ensures r.Some? ==> |r.value| == |ps| && forall i :: 0 <= i < |ps| ==> ps[i] == Some(r.value[i])
    ensures r.None? ==> exists i :: 0 <= i < |ps| && ps[i].None?
    decreases |ps|
  {
    if |ps| == 0 then Some([])
    else
      match ps[0]
      case None => None
      case Some(x) =>
        match AllPresent(ps[1..])
        case None =>
          var i :| 0 <= i < |ps[1..]| && ps[1..][i].None?;
          assert ps[i + 1].None?;
          None
        case Some(xs) => Some([x] + xs)
  }

  /** The values of one reply line, whatever their number. */
  function Reading(response: string): Option<seq<int>> {
    ParseFields(Split(response, FieldSep))
  }

  /** One turn of the waiting loop: nothing waiting, a line arrived (before
      stripping), or reading it raised. */
  datatype Incoming = Quiet | Arrived(raw: string) | ReadRaised

  /** What a turn means to the loop: keep waiting, return a reading, or
      leave through the exception handler. */
  datatype Turn = Waits | Gives(values: seq<int>) | Raises

  /** The body of the `while` loop for one turn: an empty line and a line
      that is not all integers are both waited through. */
  function TurnOf(x: Incoming): (t: Turn)
    ensures t.Raises? <==> x.ReadRaised?
    ensures t.Gives? <==> x.Arrived? && |Strip(x.raw)| > 0 && Reading(Strip(x.raw)).Some?
    ensures t.Gives? ==> Reading(Strip(x.raw)) == Some(t.values)
  {
    match x
    case Quiet => Waits
    case ReadRaised => Raises
    case Arrived(raw) =>
      var response := Strip(raw);
      if |response| > 0 then
        match Reading(response)
        case Some(vs) => Gives(vs)
        case None => Waits
      else Waits
  }

  /** The loop over classified turns; the end of the sequence is the
      5-second budget running out. */
  function Await(ts: seq<Turn>): (r: Option<seq<int>>)
    decreases |ts|
  {
    if |ts| == 0 then None
    else
      match ts[0]
      case Waits => Await(ts[1..])
      case Raises => None
      case Gives(vs) => Some(vs)
  }

  function Classify(turns: seq<Incoming>): (ts: seq<Turn>)
    ensures |ts| == |turns|
    ensures forall i :: 0 <= i < |turns| ==> ts[i] == TurnOf(turns[i])
  {
    if |turns| == 0 then [] else [TurnOf(turns[0])] + Classify(turns[1..])
  }

  /** The `while` loop of `get_sensor_data` over the turns that fit in the
      budget. */
  function AwaitReading(turns: seq<Incoming>): Option<seq<int>> {
    Await(Classify(turns))
  }

  /** The loop returns the first reading after any number of waited turns. */
  lemma {:induction false} AwaitFirst(ts: seq<Turn>, i: nat)
    requires i < |ts| && ts[i].Gives?
    requires forall j :: 0 <= j < i ==> ts[j].Waits?
    ensures Await(ts) == Some(ts[i].values)
    decreases i
  {
    if i > 0 {
      AwaitFirst(ts[1..], i - 1);
    }
  }

  /** With no reading, the loop ends in `None` at the budget or at the first
      exception. */
  lemma {:induction false} AwaitNone(ts: seq<Turn>, i: nat)
    requires i <= |ts|
    requires forall j :: 0 <= j < i ==> ts[j].Waits?
    requires i == |ts| || ts[i].Raises?
    ensures Await(ts) == None
    decreases i
  {
    if i > 0 {
      AwaitNone(ts[1..], i - 1);
    }
  }

  /** A result of the loop is the reading of some turn, every earlier turn
      having been waited through. */
  lemma {:induction false} AwaitDelivered(ts: seq<Turn>) returns (i: nat)
    requires Await(ts).Some?
    ensures i < |ts| && ts[i].Gives? && Await(ts) == Some(ts[i].values)
    ensures forall j :: 0 <= j < i ==> ts[j].Waits?
    decreases |ts|
  {
    if ts[0].Waits? {
      var k := AwaitDelivered(ts[1..]);
      i := k + 1;
      forall j | 0 <= j < i
        ensures ts[j].Waits?
      {
        if j > 0 {
          assert ts[j] == ts[1..][j - 1];
        }
      }
    } else {
      i := 0;
    }
  }

  /** What `get_sensor_data` leaves behind: the reading, and the link's
      read timeout, which the `finally` clause puts back to one second. */
  datatype SensorPoll = SensorPoll(values: Option<seq<int>>, timeout: int)

  const DefaultTimeout := 1

  /** `get_sensor_data`: `GETD` is sent once, and the line `send_command`
      reads back is discarded; later lines are waited for. The link's read
      timeout is set to one second first, so whatever it was before does
      not matter. */
  function GetSensorData(getd: Exchange, turns: seq<Incoming>): (r: SensorPoll)
    ensures r.timeout == DefaultTimeout
    ensures getd.OtherFault? ==> r.values.None?
    ensures !getd.OtherFault? ==> r.values == AwaitReading(turns)
  {
    match SendCommand(Wire(GetData), getd)
    case Err(_) => SensorPoll(None, DefaultTimeout)
    case Ok(_) => SensorPoll(AwaitReading(turns), DefaultTimeout)
  }

  /** `get_sensor_data` returns the first line that is all integers, after
      any number of quiet turns, empty lines and malformed lines. */
  lemma FirstReadingWins(getd: Exchange, turns: seq<Incoming>, i: nat)
    requires !getd.OtherFault?
    requires i < |turns| && TurnOf(turns[i]).Gives?
    requires forall j :: 0 <= j < i ==> TurnOf(turns[j]).Waits?
    ensures GetSensorData(getd, turns).values == Some(TurnOf(turns[i]).values)
  {
    AwaitFirst(Classify(turns), i);
  }

  /** Without a good line `get_sensor_data` gives `None`, either when the
      budget runs out or at the first read that raises. */
  lemma NoReadingNone(getd: Exchange, turns: seq<Incoming>, i: nat)
    requires i <= |turns|
    requires forall j :: 0 <= j < i ==> TurnOf(turns[j]).Waits?
    requires i == |turns| || turns[i].ReadRaised?
    ensures GetSensorData(getd, turns).values == None
  {
    AwaitNone(Classify(turns), i);
  }

  /** A reading `get_sensor_data` returns is the reading of one incoming
      line, every earlier turn having been waited through: none is made up. */
  lemma ReadingDelivered(getd: Exchange, turns: seq<Incoming>) returns (i: nat)
    requires GetSensorData(getd, turns).values.Some?
    ensures i < |turns| && turns[i].Arrived?
    ensures GetSensorData(getd, turns).values == Reading(Strip(turns[i].raw))
    ensures forall j :: 0 <= j < i ==> TurnOf(turns[j]).Waits?
  {
    i := AwaitDelivered(Classify(turns));
  }

  /** The comma-separated text of some integers. */
  function ValuesText(vs: seq<int>): string {
    Join(IntTexts(vs), FieldSep)
  }

  function IntTexts(vs: seq<int>): (r: seq<string>)
    ensures |r| == |vs|
    ensures forall i :: 0 <= i < |vs| ==> r[i] == IntToString(vs[i])
  {
    if |vs| == 0 then [] else [IntToString(vs[0])] + IntTexts(vs[1..])
  }

  /** `str(n)` is digits after an optional minus sign, so it has no comma
      and no surrounding whitespace. */
  lemma IntTextShape(n: int)
    ensures |IntToString(n)| > 0 && Trimmed(IntToString(n))
    ensures forall k :: 0 <= k < |IntToString(n)| ==> IntToString(n)[k] != ','
  {
    var s := IntToString(n);
    var d := NatToString(if n < 0 then -n else n);
    assert forall k :: 0 <= k < |s| ==> IsDigit(s[k]) || s[k] == '-';
    assert !IsSpace(s[0]) && !IsSpace(s[|s| - 1]);
  }

  lemma NoCommaInInt(n: int)
    ensures !Contains(IntToString(n), FieldSep)
  {
    var s := IntToString(n);
    IntTextShape(n);
    if Contains(s, FieldSep) {
      var j :| 0 <= j <= |s| - 1 && OccursAt(s, FieldSep, j);
      WindowChar(s, FieldSep, j, 0);
      assert false;
    }
  }

  /** A comma-separated line of integers reads back as those integers, of
      any count: four values are not required. */
  lemma {:induction false} ReadingRoundTrip(vs: seq<int>)
    requires |vs| > 0
    ensures Reading(ValuesText(vs)) == Some(vs)
  {
    var parts := IntTexts(vs);
    forall i | 0 <= i < |parts|
      ensures !Contains(parts[i], FieldSep)
    {
      NoCommaInInt(vs[i]);
    }
    SplitJoin(parts, FieldSep);
    ParsesEach(vs);
  }

  lemma {:induction false} ParsesEach(vs: seq<int>)
    ensures ParseFields(IntTexts(vs)) == Some(vs)
    decreases |vs|
  {
    if |vs| > 0 {
      var head, tail := IntToString(vs[0]), IntTexts(vs[1..]);
      assert IntTexts(vs) == [head] + tail;
      ParsesEach(vs[1..]);
      ParseIntOfText(vs[0]);
      ParseFieldsCons(head, tail, vs[0], vs[1..]);
      assert [vs[0]] + vs[1..] == vs;
    }
  }

  lemma ParseFieldsCons(x: string, rest: seq<string>, n: int, ns: seq<int>)
    requires ParseInt(x) == Some(n) && ParseFields(rest) == Some(ns)
    ensures ParseFields([x] + rest) == Some([n] + ns)
  {
    ConsParts(x, rest);
    var ps := ParseEach([x] + rest);
    assert ps[0] == Some(n);
    assert ps[1..] == ParseEach(rest);
  }

  lemma ConsParts<T>(x: T, rest: seq<T>)
    ensures ([x] + rest)[0] == x && ([x] + rest)[1..] == rest
  {
  }

  /** The text of a non-empty run of integers begins with the first one's
      first character and ends with the last one's last character. */
  lemma ValuesTextTrimmed(vs: seq<int>)
    requires |vs| > 0
    ensures Trimmed(ValuesText(vs))
    ensures |ValuesText(vs)| > 0
    ensures ValuesText(vs)[0] == IntToString(vs[0])[0]
    ensures ValuesText(vs)[|ValuesText(vs)| - 1] == IntToString(vs[|vs| - 1])[|IntToString(vs[|vs| - 1])| - 1]
  {
    var parts := IntTexts(vs);
    IntTextShape(vs[0]);
    IntTextShape(vs[|vs| - 1]);
    JoinEnds(parts, FieldSep);
  }

  /** A join starts with the first piece's first character and ends with the
      last piece's last character. */
  lemma JoinEnds(parts: seq<string>, sep: string)
    requires |parts| > 0 && |parts[0]| > 0 && |parts[|parts| - 1]| > 0
    ensures |Join(parts, sep)| > 0
    ensures Join(parts, sep)[0] == parts[0][0]
    ensures Join(parts, sep)[|Join(parts, sep)| - 1] == parts[|parts| - 1][|parts[|parts| - 1]| - 1]
  {
    JoinLast(parts, sep);
    if |parts| > 1 {
      var j := Join(parts[1..], sep);
      assert Join(parts, sep) == parts[0] + sep + j;
      assert (parts[0] + sep + j)[0] == parts[0][0];
    }
  }

  lemma {:induction false} JoinLast(parts: seq<string>, sep: string)
    requires |parts| > 0 && |parts[|parts| - 1]| > 0
    ensures |Join(parts, sep)| > 0
    ensures Join(parts, sep)[|Join(parts, sep)| - 1] == parts[|parts| - 1][|parts[|parts| - 1]| - 1]
    decreases |parts|
  {
    if |parts| > 1 {
      var rest := parts[1..];
      assert rest[|rest| - 1] == parts[|parts| - 1];
      JoinLast(rest, sep);
      var j := Join(rest, sep);
      assert Join(parts, sep) == parts[0] + sep + j;
      assert (parts[0] + sep + j)[|parts[0] + sep + j| - 1] == j[|j| - 1];
    }
  }

  /** The reply `send_command` reads right after `GETD` is discarded even
      when it is a valid reading: whatever arrives later, the poll gives the
      same as when that reply was lost to a serial fault, and with nothing
      arriving later it gives `None`. */
  lemma FirstReplySwallowed(vs: seq<int>, turns: seq<Incoming>)
    requires |vs| > 0
    ensures Reading(ValuesText(vs)) == Some(vs)
    ensures GetSensorData(Replied(ValuesText(vs)), turns).values == GetSensorData(SerialFault, turns).values
    ensures GetSensorData(Replied(ValuesText(vs)), []).values == None
  {
    ReadingRoundTrip(vs);
  }

  /** A line of integers is accepted whatever their count, line ending
      included: there is no check for exactly four values. */
  lemma AnyCountAccepted(getd: Exchange, vs: seq<int>, w: string)
    requires !getd.OtherFault? && |vs| > 0 && AllSpace(w)
    ensures GetSensorData(getd, [Arrived(ValuesText(vs) + w)]).values == Some(vs)
  {
    var s := ValuesText(vs);
    ReadingRoundTrip(vs);
    ValuesTextTrimmed(vs);
    StripEndAppend(s, w);
    StripTrimmed(s);
    assert TurnOf(Arrived(s + w)) == Gives(vs);
    AwaitFirst(Classify([Arrived(s + w)]), 0);
  }

  // ---------------------------------------------------------------------
  // Start-up

  /** Why start-up failed. */
  datatype InitError =
    | FinderFailed            // the port-finder script exited with an error
    | ConfigUnreadable        // the saved configuration is missing, not JSON, or lacks a key
    | NotFound                // ConnectionError: a saved port is empty
    | OpenFailed(link: Link)  // opening that link raised

  /** How `__init__` ends: both links open, or an error after closing every
      link it had opened. */
  datatype InitOutcome =
    | Connected(stepperPort: string, mechanismPort: string)
    | InitFailed(error: InitError, openedLinks: set<Link>, closedLinks: set<Link>)

  /** `__init__`: run the finder, read the saved ports, insist both are
      non-empty, then open the stepper link and the mechanism link. */
  function InitManager(finderOk: bool, config: PortFinder.ConfigFile, stepperOpens: bool, mechanismOpens: bool): (r: InitOutcome)
    ensures r.Connected? <==>
      finderOk && config.Saved? && PortFinder.Truthy(config.stepper) && PortFinder.Truthy(config.mechanism)
      && stepperOpens && mechanismOpens
    ensures r.Connected? ==> r == Connected(config.stepper.value, config.mechanism.value)
    ensures r.InitFailed? && r.error == NotFound <==>
      finderOk && config.Saved? && !(PortFinder.Truthy(config.stepper) && PortFinder.Truthy(config.mechanism))
    ensures r.InitFailed? ==> r.openedLinks == r.closedLinks
    ensures r.InitFailed? ==> Mechanism !in r.openedLinks
  {
    if !finderOk then InitFailed(FinderFailed, {}, {})
    else if !config.Saved? then InitFailed(ConfigUnreadable, {}, {})
    else if !(PortFinder.Truthy(config.stepper) && PortFinder.Truthy(config.mechanism)) then InitFailed(NotFound, {}, {})
    else if !stepperOpens then InitFailed(OpenFailed(Stepper), {}, {})
    else if !mechanismOpens then
      // Only the stepper link is open, so `close()` reaches it whether or
      // not closing it raises.
      InitFailed(OpenFailed(Mechanism), {Stepper}, Close({Stepper}, false))
    else Connected(config.stepper.value, config.mechanism.value)
  }

  /** The saved configuration after the finder script ran: a completed
      search that found both controllers overwrites it, and every other run
      leaves the file as it was. */
  function ConfigAfter(f: PortFinder.ConfigFile, run: PortFinder.FinderRun): (after: PortFinder.ConfigFile)
    ensures run.Searched? && run.found.saved ==> after == PortFinder.Saved(run.found.stepper, run.found.mechanism)
    ensures !(run.Searched? && run.found.saved) ==> after == f
  {
    if run.Searched? && run.found.saved then PortFinder.Saved(run.found.stepper, run.found.mechanism) else f
  }

  /** `__init__` with the finder script it runs: the script's crash is the
      `CalledProcessError`, and the file read afterwards is whatever the run
      left behind. */
  function StartManager(f: PortFinder.ConfigFile, verifyReply: string -> PortFinder.Reply, cs: seq<PortFinder.Candidate>,
                        stepperOpens: bool, mechanismOpens: bool): (r: InitOutcome)
    ensures r.InitFailed? && r.error == FinderFailed <==> f.LoadError?
  {
    var run := PortFinder.RunPortFinder(f, verifyReply, cs);
    InitManager(!run.Crashed?, ConfigAfter(f, run), stepperOpens, mechanismOpens)
  }

  /** A saved pair that no longer answers, followed by a search that finds
      nothing, leaves the stale pair in the file, and the manager connects to
      it anyway. */
  lemma StaleConfigUsed(s: string, m: string, verifyReply: string -> PortFinder.Reply, cs: seq<PortFinder.Candidate>)
    requires |s| > 0 && |m| > 0 && !PortFinder.VerifyPort(verifyReply(s), PortFinder.StepperToken)
    requires !PortFinder.GetArduinoPorts(cs).saved
    ensures StartManager(PortFinder.Saved(Some(s), Some(m)), verifyReply, cs, true, true) == Connected(s, m)
  {
  }

  /** The manager connects to the freshly found pair when the search finds
      both controllers, and to the verified saved pair when it is reused. */
  lemma StartManagerPorts(f: PortFinder.ConfigFile, verifyReply: string -> PortFinder.Reply, cs: seq<PortFinder.Candidate>)
    ensures var run := PortFinder.RunPortFinder(f, verifyReply, cs);
      var r := StartManager(f, verifyReply, cs, true, true);
      && (run.Searched? && run.found.saved ==> r == Connected(run.found.stepper.value, run.found.mechanism.value))
      && (run.Reused? ==> r == Connected(run.stepper, run.mechanism))
  {
  }

  /** `close()`: the links whose `close()` is called. Both calls sit in one
      `try`, so a `SerialException` from closing the stepper link skips the
      mechanism link. */
  function Close(links: set<Link>, stepperRaises: bool): (called: set<Link>)
    ensures Stepper in called <==> Stepper in links
    ensures Mechanism in called <==> Mechanism in links && !(Stepper in links && stepperRaises)
  {
    if Stepper in links && stepperRaises then {Stepper} else links
  }

  /** Without a fault on the stepper link, every open link is closed. */
  lemma CloseAll(links: set<Link>)
    ensures Close(links, false) == links
  {
  }
}
