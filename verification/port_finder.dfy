/** Controller discovery (SDM_logic/arduino_port_finder.py): probe the serial
    ports in reverse enumeration order, skip Bluetooth devices, bind the
    first port answering `ARDUINO1` as the stepper and the first answering
    `ARDUINO2` as the mechanism, stop once both are bound, and save the pair
    only when both were found. Serial I/O is replaced by each port's probe
    outcome. */
module PortFinder {
  import opened Values
  import opened Text

  const StepperToken := "ARDUINO1"
  const MechanismToken := "ARDUINO2"
  const BluetoothMark := "Bluetooth"

  /** What probing a port gave: the line it answered (before stripping), or
      an exception from opening, writing, reading or decoding. */
  datatype Reply = Answered(line: string) | ProbeRaised

  /** An enumerated port and its probe outcome. */
  datatype Candidate = Candidate(device: string, reply: Reply)

  /** `list_all_ports`: the enumerated ports, or when there are none and the
      system is not Windows the `/dev/tty.*` devices (given already sorted
      in descending order; `None` when listing them raised), in reverse. */
  function ListAllPorts<P>(comports: seq<P>, onWindows: bool, ttyDescending: Option<seq<P>>): (r: seq<P>)
    ensures |comports| > 0 || onWindows || ttyDescending.None? ==> r == Reverse(comports)
    ensures |comports| == 0 && !onWindows && ttyDescending.Some? ==> r == Reverse(ttyDescending.value)
  {
    var ports := if |comports| == 0 && !onWindows && ttyDescending.Some? then ttyDescending.value else comports;
    Reverse(ports)
  }

  function Reverse<T>(s: seq<T>): (r: seq<T>)
    ensures |r| == |s|
    ensures forall i :: 0 <= i < |s| ==> r[i] == s[|s| - 1 - i]
  {
    if |s| == 0 then [] else Reverse(s[1..]) + [s[0]]
  }

  /** A sorted-descending `/dev/tty.*` listing is probed in ascending order. */
  lemma TtyProbedAscending(tty: seq<string>, less: (string, string) -> bool)
    requires forall i, j :: 0 <= i < j < |tty| ==> less(tty[j], tty[i])
    ensures forall i, j :: 0 <= i < j < |tty| ==> less(ListAllPorts([], false, Some(tty))[i], ListAllPorts([], false, Some(tty))[j])
  {
  }

  // ---------------------------------------------------------------------
  // The search

  /** Python truthiness of a bound port: `None` and `""` are both false. */
  predicate Truthy(p: Option<string>) {
    p.Some? && |p.value| > 0
  }

  datatype Bindings = Bindings(stepper: Option<string>, mechanism: Option<string>)

  const Unbound := Bindings(None, None)

  predicate BothBound(b: Bindings) {
    Truthy(b.stepper) && Truthy(b.mechanism)
  }

  predicate IsBluetooth(c: Candidate) {
    Contains(c.device, BluetoothMark)
  }

  /** A probe that went through: a non-Bluetooth port whose probe did not
      raise. Only after such a probe does the loop check whether to stop. */
  predicate Probed(c: Candidate) {
    !IsBluetooth(c) && c.reply.Answered?
  }

  /** Whether the port's stripped answer is `token`. */
  predicate Answers(c: Candidate, token: string) {
    Probed(c) && Strip(c.reply.line) == token
  }

  /** One port's effect on the bindings: an `ARDUINO1` answer binds the
      stepper unless it is already (truthily) bound, an `ARDUINO2` answer
      likewise binds the mechanism, and anything else changes nothing. */
  function Bind(b: Bindings, c: Candidate): (r: Bindings)
    ensures Answers(c, StepperToken) && !Truthy(b.stepper) ==> r == b.(stepper := Some(c.device))
    ensures Answers(c, MechanismToken) && !Truthy(b.mechanism) ==> r == b.(mechanism := Some(c.device))
    ensures !(Answers(c, StepperToken) && !Truthy(b.stepper)) && !(Answers(c, MechanismToken) && !Truthy(b.mechanism)) ==> r == b
  {
    if !Probed(c) then b
    else
      var response := Strip(c.reply.line);
      if response == StepperToken && !Truthy(b.stepper) then b.(stepper := Some(c.device))
      else if response == MechanismToken && !Truthy(b.mechanism) then b.(mechanism := Some(c.device))
      else b
  }

  /** Every port's effect, with no early stop: the reference the search is
      compared against. */
  function BindAll(b: Bindings, cs: seq<Candidate>): Bindings
    decreases |cs|
  {
    if |cs| == 0 then b else BindAll(Bind(b, cs[0]), cs[1..])
  }

  /** Where the loop ends: the bindings and how many ports it went through. */
  datatype Outcome = Outcome(bindings: Bindings, consumed: nat)

  /** The `for port in available_ports` loop of `get_arduino_ports`. */
  function Search(b: Bindings, cs: seq<Candidate>): (r: Outcome)
    ensures r.consumed <= |cs|
    ensures r.bindings == BindAll(b, cs[..r.consumed])
    decreases |cs|
  {
    if |cs| == 0 then Outcome(b, 0)
    else
      var b1 := Bind(b, cs[0]);
      if Probed(cs[0]) && BothBound(b1) then Outcome(b1, 1)
      else
        var rest := Search(b1, cs[1..]);
        PrefixTail(cs, rest.consumed + 1);
        Outcome(rest.bindings, rest.consumed + 1)
  }

  /** Dropping the first of a prefix is a prefix of the tail. */
  lemma PrefixTail<T>(s: seq<T>, k: nat)
    requires 0 < k <= |s|
    ensures s[..k][0] == s[0] && s[..k][1..] == s[1..][..k - 1]
  {
  }

  /** The non-Bluetooth devices of a port list, in order. */
  function NonBluetooth(cs: seq<Candidate>): (r: seq<string>)
    ensures forall i :: 0 <= i < |r| ==> !Contains(r[i], BluetoothMark)
    decreases |cs|
  {
    if |cs| == 0 then []
    else (if IsBluetooth(cs[0]) then [] else [cs[0].device]) + NonBluetooth(cs[1..])
  }

  /** The devices `get_arduino_ports` opens, in order: the non-Bluetooth
      ports the loop reaches before its `break`. */
  function OpenedDevices(cs: seq<Candidate>): seq<string> {
    NonBluetooth(cs[..Search(Unbound, cs).consumed])
  }

  /** What `get_arduino_ports` returns and whether it saves the pair. */
  datatype Found = Found(stepper: Option<string>, mechanism: Option<string>, saved: bool)

  function GetArduinoPorts(cs: seq<Candidate>): (r: Found)
    ensures |cs| == 0 ==> r == Found(None, None, false)
    ensures r.saved <==> Truthy(r.stepper) && Truthy(r.mechanism)
  {
    if |cs| == 0 then Found(None, None, false)
    else
      var b := Search(Unbound, cs).bindings;
      Found(b.stepper, b.mechanism, Truthy(b.stepper) && Truthy(b.mechanism))
  }

  // ---------------------------------------------------------------------
  // Properties of the search

  /** The loop stops at the first port after which both roles are bound, and
      goes through every port when that never happens. */
  lemma {:induction false} StopsAtFirstBoth(b: Bindings, cs: seq<Candidate>)
    requires !BothBound(b)
    ensures var r := Search(b, cs);
      && (r.consumed < |cs| ==> BothBound(r.bindings))
      && (forall k :: 0 <= k < r.consumed ==> !BothBound(BindAll(b, cs[..k])))
    decreases |cs|
  {
    if |cs| > 0 {
      var b1 := Bind(b, cs[0]);
      if !(Probed(cs[0]) && BothBound(b1)) {
        assert !BothBound(b1);
        StopsAtFirstBoth(b1, cs[1..]);
        var r := Search(b1, cs[1..]);
        forall k | 0 <= k < r.consumed + 1
          ensures !BothBound(BindAll(b, cs[..k]))
        {
          if k > 0 {
            PrefixTail(cs, k);
          }
        }
      }
    }
  }

  /** The first non-Bluetooth port whose probe answers `token`, if any. */
  function FirstAnswering(cs: seq<Candidate>, token: string): Option<string>
    decreases |cs|
  {
    if |cs| == 0 then None
    else if Answers(cs[0], token) then Some(cs[0].device)
    else FirstAnswering(cs[1..], token)
  }

  /** Some port answers exactly when one of them sends the token. */
  lemma {:induction false} FirstAnsweringSome(cs: seq<Candidate>, token: string)
    ensures FirstAnswering(cs, token).Some? <==> exists i :: 0 <= i < |cs| && Answers(cs[i], token)
    decreases |cs|
  {
    if |cs| > 0 && !Answers(cs[0], token) {
      FirstAnsweringSome(cs[1..], token);
      assert forall i :: 1 <= i < |cs| ==> cs[i] == cs[1..][i - 1];
    }
  }

  /** Devices are named (non-empty), so a bound port stays bound. */
  predicate Named(cs: seq<Candidate>) {
    forall i :: 0 <= i < |cs| ==> |cs[i].device| > 0
  }

  /** The binding of the role a token announces. */
  function Slot(b: Bindings, token: string): Option<string> {
    if token == StepperToken then b.stepper else b.mechanism
  }

  predicate IsToken(token: string) {
    token == StepperToken || token == MechanismToken
  }

  lemma TokensDiffer()
    ensures StepperToken != MechanismToken
  {
    assert StepperToken[7] != MechanismToken[7];
  }

  /** A port fills the role its answer names, if that role is still empty,
      and leaves the other role alone. */
  lemma BindSlot(b: Bindings, c: Candidate, token: string)
    requires IsToken(token)
    ensures Slot(Bind(b, c), token) ==
      if Answers(c, token) && !Truthy(Slot(b, token)) then Some(c.device) else Slot(b, token)
  {
    TokensDiffer();
  }

  /** With no prior binding for a role, the unstopped fold binds it to the
      first port answering its token; a bound role stays as it is. */
  lemma {:induction false} BindAllSlot(b: Bindings, cs: seq<Candidate>, token: string)
    requires Named(cs) && IsToken(token)
    ensures Truthy(Slot(b, token)) || FirstAnswering(cs, token).None? ==>
      Slot(BindAll(b, cs), token) == Slot(b, token)
    ensures !Truthy(Slot(b, token)) && FirstAnswering(cs, token).Some? ==>
      Slot(BindAll(b, cs), token) == FirstAnswering(cs, token)
    decreases |cs|
  {
    if |cs| > 0 {
      var b1 := Bind(b, cs[0]);
      BindSlot(b, cs[0], token);
      NamedTail(cs);
      BindAllSlot(b1, cs[1..], token);
    }
  }

  lemma NamedTail(cs: seq<Candidate>)
    requires Named(cs) && |cs| > 0
    ensures Named(cs[1..]) && |cs[0].device| > 0
  {
    assert forall i :: 0 <= i < |cs[1..]| ==> cs[1..][i] == cs[i + 1];
  }

  /** `get_arduino_ports` binds each role to the first named, non-Bluetooth
      port answering its token, across the whole list: a later answer never
      displaces an earlier one, and the early stop never hides a match. */
  lemma FirstMatchWins(cs: seq<Candidate>)
    requires Named(cs)
    ensures GetArduinoPorts(cs).stepper == FirstAnswering(cs, StepperToken)
    ensures GetArduinoPorts(cs).mechanism == FirstAnswering(cs, MechanismToken)
  {
    if |cs| > 0 {
      var r := Search(Unbound, cs);
      var n := r.consumed;
      StopsAtFirstBoth(Unbound, cs);
      assert Named(cs[..n]);
      BindAllSlot(Unbound, cs[..n], StepperToken);
      BindAllSlot(Unbound, cs[..n], MechanismToken);
      TokensDiffer();
      if n < |cs| {
        PrefixMatch(cs, n, StepperToken);
        PrefixMatch(cs, n, MechanismToken);
      } else {
        assert cs[..n] == cs;
      }
    }
  }

  /** When the prefix already holds an answer, the first answer of the whole
      list is the prefix's. */
  lemma {:induction false} PrefixMatch(cs: seq<Candidate>, n: nat, token: string)
    requires n <= |cs|
    ensures FirstAnswering(cs[..n], token).Some? ==> FirstAnswering(cs, token) == FirstAnswering(cs[..n], token)
    decreases n
  {
    if n > 0 {
      PrefixTail(cs, n);
      if !Answers(cs[0], token) {
        PrefixMatch(cs[1..], n - 1, token);
      }
    }
  }


  /** One port never takes both roles: the two tokens differ. */
  lemma OnePortOneRole(cs: seq<Candidate>)
    requires Named(cs)
    requires forall i, j :: 0 <= i < j < |cs| ==> cs[i].device != cs[j].device
    ensures var r := GetArduinoPorts(cs);
      r.stepper.Some? && r.mechanism.Some? ==> r.stepper != r.mechanism
  {
    FirstMatchWins(cs);
    var s := FirstAnswering(cs, StepperToken);
    var m := FirstAnswering(cs, MechanismToken);
    if s.Some? && m.Some? {
      var i := FirstIndex(cs, StepperToken);
      var j := FirstIndex(cs, MechanismToken);
      assert StepperToken[7] != MechanismToken[7];
      assert i != j;
    }
  }

  /** Where the first answer sits. */
  lemma {:induction false} FirstIndex(cs: seq<Candidate>, token: string) returns (i: nat)
    requires FirstAnswering(cs, token).Some?
    ensures i < |cs| && Answers(cs[i], token) && FirstAnswering(cs, token) == Some(cs[i].device)
    ensures forall j :: 0 <= j < i ==> !Answers(cs[j], token)
    decreases |cs|
  {
    if Answers(cs[0], token) {
      i := 0;
    } else {
      var k := FirstIndex(cs[1..], token);
      i := k + 1;
      assert forall j :: 1 <= j < i ==> cs[j] == cs[1..][j - 1];
    }
  }

  /** A device is among the non-Bluetooth devices of a list iff some
      non-Bluetooth entry has that name. */
  lemma {:induction false} NonBluetoothExactly(cs: seq<Candidate>, d: string)
    ensures d in NonBluetooth(cs) <==> exists i :: 0 <= i < |cs| && cs[i].device == d && !IsBluetooth(cs[i])
    decreases |cs|
  {
    if |cs| > 0 {
      NonBluetoothExactly(cs[1..], d);
      if exists i :: 0 <= i < |cs| && cs[i].device == d && !IsBluetooth(cs[i]) {
        var i :| 0 <= i < |cs| && cs[i].device == d && !IsBluetooth(cs[i]);
        if i > 0 {
          assert cs[1..][i - 1] == cs[i];
        }
      }
      if exists i :: 0 <= i < |cs[1..]| && cs[1..][i].device == d && !IsBluetooth(cs[1..][i]) {
        var i :| 0 <= i < |cs[1..]| && cs[1..][i].device == d && !IsBluetooth(cs[1..][i]);
        assert cs[i + 1] == cs[1..][i];
      }
    }
  }

  /** The loop opens a device iff it is a non-Bluetooth port placed before
      the point where the loop stops. */
  lemma OpenedExactly(cs: seq<Candidate>, d: string)
    ensures var n := Search(Unbound, cs).consumed;
      d in OpenedDevices(cs) <==> exists i :: 0 <= i < n && cs[i].device == d && !IsBluetooth(cs[i])
  {
    var n := Search(Unbound, cs).consumed;
    var pre := cs[..n];
    NonBluetoothExactly(pre, d);
    assert forall i :: 0 <= i < n ==> pre[i] == cs[i];
  }

  /** Once both controllers are bound the loop breaks: no port after that
      point is opened (device names being distinct, as enumeration gives
      them). */
  lemma LaterPortsNotOpened(cs: seq<Candidate>, k: nat)
    requires forall i, j :: 0 <= i < j < |cs| ==> cs[i].device != cs[j].device
    requires Search(Unbound, cs).consumed <= k < |cs|
    ensures cs[k].device !in OpenedDevices(cs)
  {
    OpenedExactly(cs, cs[k].device);
  }

  /** Three ports answering `ARDUINO1`, `ARDUINO2` and something else, in
      that order: the loop stops after the second, and the third is never
      opened. */
  lemma StopsBeforeThirdPort()
    ensures var cs := [Candidate("A", Answered(StepperToken)), Candidate("B", Answered(MechanismToken)),
                       Candidate("C", Answered("x"))];
      && Search(Unbound, cs).consumed == 2
      && OpenedDevices(cs) == ["A", "B"]
      && GetArduinoPorts(cs) == Found(Some("A"), Some("B"), true)
  {
    var cs := [Candidate("A", Answered(StepperToken)), Candidate("B", Answered(MechanismToken)),
               Candidate("C", Answered("x"))];
    TokenTrimmed(StepperToken);
    TokenTrimmed(MechanismToken);
    assert !Contains("A", BluetoothMark) && !Contains("B", BluetoothMark);
    assert Bind(Unbound, cs[0]) == Bindings(Some("A"), None);
    assert Bind(Bindings(Some("A"), None), cs[1]) == Bindings(Some("A"), Some("B"));
    assert cs[1..][0] == cs[1] && cs[..2] == cs[..2];
    assert Search(Unbound, cs) == Outcome(Bindings(Some("A"), Some("B")), 2);
    assert cs[..2] == [cs[0], cs[1]];
    assert [cs[0], cs[1]][1..] == [cs[1]];
    assert NonBluetooth([cs[1]]) == ["B"];
    assert NonBluetooth([cs[0], cs[1]]) == ["A"] + NonBluetooth([cs[1]]);
  }

  /** A handshake token has no surrounding whitespace, so stripping keeps it. */
  lemma TokenTrimmed(t: string)
    requires t == StepperToken || t == MechanismToken
    ensures Strip(t) == t
  {
    assert Trimmed(t);
    StripTrimmed(t);
  }

  /** `get_arduino_ports` on the ports `list_all_ports` gives: each port
      paired with its probe outcome, enumerated, then reversed. */
  function DetectPorts(comports: seq<Candidate>, onWindows: bool, ttyDescending: Option<seq<Candidate>>): (r: Found)
    ensures |comports| > 0 ==> r == GetArduinoPorts(Reverse(comports))
  {
    GetArduinoPorts(ListAllPorts(comports, onWindows, ttyDescending))
  }

  /** The port a token's role is bound to. */
  function FoundSlot(r: Found, token: string): Option<string> {
    if token == StepperToken then r.stepper else r.mechanism
  }

  /** Because the enumeration is probed from its end, each role goes to the
      LAST enumerated port answering its token, and to none when no port
      answers it. */
  lemma LastEnumeratedWins(comports: seq<Candidate>, onWindows: bool, ttyDescending: Option<seq<Candidate>>, token: string)
    requires |comports| > 0 && Named(comports) && IsToken(token)
    ensures var slot := FoundSlot(DetectPorts(comports, onWindows, ttyDescending), token);
      && (slot.Some? <==> exists i :: 0 <= i < |comports| && Answers(comports[i], token))
      && (slot.Some? ==> exists i :: 0 <= i < |comports| && Answers(comports[i], token) && slot == Some(comports[i].device)
                                   && forall j :: i < j < |comports| ==> !Answers(comports[j], token))
  {
    var rev := Reverse(comports);
    ReverseNamed(comports);
    FirstMatchWins(rev);
    assert FoundSlot(DetectPorts(comports, onWindows, ttyDescending), token) == FirstAnswering(rev, token);
    ReverseAnswers(comports, token);
    if FirstAnswering(rev, token).Some? {
      var i := LastAnswering(comports, token);
    }
  }

  lemma ReverseNamed(cs: seq<Candidate>)
    requires Named(cs)
    ensures Named(Reverse(cs))
  {
    var rev := Reverse(cs);
    forall i | 0 <= i < |cs| ensures |rev[i].device| > 0 {
      assert rev[i] == cs[|cs| - 1 - i];
    }
  }

  /** Some port of the reversed list answers iff some port of the list does. */
  lemma ReverseAnswers(cs: seq<Candidate>, token: string)
    ensures FirstAnswering(Reverse(cs), token).Some? <==> exists i :: 0 <= i < |cs| && Answers(cs[i], token)
  {
    var rev := Reverse(cs);
    FirstAnsweringSome(rev, token);
    if exists i :: 0 <= i < |cs| && Answers(cs[i], token) {
      var i :| 0 <= i < |cs| && Answers(cs[i], token);
      assert rev[|cs| - 1 - i] == cs[i];
    }
    if exists k :: 0 <= k < |rev| && Answers(rev[k], token) {
      var k :| 0 <= k < |rev| && Answers(rev[k], token);
      assert rev[k] == cs[|cs| - 1 - k];
    }
  }

  /** The first answer of the reversed list is the last answer of the list. */
  lemma LastAnswering(cs: seq<Candidate>, token: string) returns (i: nat)
    requires FirstAnswering(Reverse(cs), token).Some?
    ensures i < |cs| && Answers(cs[i], token) && FirstAnswering(Reverse(cs), token) == Some(cs[i].device)
    ensures forall j :: i < j < |cs| ==> !Answers(cs[j], token)
  {
    var rev := Reverse(cs);
    var k := FirstIndex(rev, token);
    i := |cs| - 1 - k;
    assert cs[i] == rev[k];
    forall j | i < j < |cs|
      ensures !Answers(cs[j], token)
    {
      assert cs[j] == rev[|cs| - 1 - j];
    }
  }

  // ---------------------------------------------------------------------
  // verify_port and the saved-configuration gate

  /** `verify_port`: true iff the port answered and its stripped answer is
      the expected token; any exception makes it false. */
  predicate VerifyPort(reply: Reply, expected: string) {
    reply.Answered? && Strip(reply.line) == expected
  }

  /** A handshake answer with the usual `\r\n` line ending verifies; one in
      another case does not. */
  lemma VerifyPortExamples()
    ensures VerifyPort(Answered(StepperToken + "\r\n"), StepperToken)
    ensures !VerifyPort(Answered("arduino1\r\n"), StepperToken)
    ensures !VerifyPort(ProbeRaised, StepperToken)
  {
    StripSurrounded("", StepperToken, "\r\n");
    assert "" + StepperToken + "\r\n" == StepperToken + "\r\n";
    var low := "arduino1";
    assert !IsSpace(low[0]) && !IsSpace(low[|low| - 1]);
    StripSurrounded("", low, "\r\n");
    assert "" + low + "\r\n" == "arduino1\r\n";
  }

  /** The saved configuration file as `load_port_config` finds it. */
  datatype ConfigFile =
    | NoFile                  // FileNotFoundError
    | BadJson                 // json.JSONDecodeError
    | LoadError               // any other error while loading, which is not caught:
                              // a missing key (KeyError), JSON that is not an object
                              // (TypeError), bytes that are not UTF-8 (UnicodeDecodeError)
    | Saved(stepper: Option<string>, mechanism: Option<string>)

  /** `load_port_config`: `(None, None)` for a missing file or one that is
      not JSON; `Err` for every other error while loading, which escapes. */
  function LoadPortConfig(f: ConfigFile): (r: Result<(Option<string>, Option<string>), string>)
    ensures f.NoFile? || f.BadJson? ==> r == Ok((None, None))
    ensures f.Saved? ==> r == Ok((f.stepper, f.mechanism))
    ensures r.Err? <==> f.LoadError?
  {
    match f
    case NoFile => Ok((None, None))
    case BadJson => Ok((None, None))
    case LoadError => Err("uncaught error while loading")
    case Saved(s, m) => Ok((s, m))
  }

  /** How the script run ends. */
  datatype FinderRun =
    | Reused(stepper: string, mechanism: string)
    | Searched(found: Found)
    | Crashed

  /** The `__main__` block: a saved pair is reused only when both entries are
      truthy and both ports verify with their own token (the mechanism is
      not probed when the stepper fails); otherwise the search runs. */
  function RunPortFinder(f: ConfigFile, verifyReply: string -> Reply, cs: seq<Candidate>): (r: FinderRun)
    ensures r.Reused? <==>
      f.Saved? && Truthy(f.stepper) && Truthy(f.mechanism)
      && VerifyPort(verifyReply(f.stepper.value), StepperToken)
      && VerifyPort(verifyReply(f.mechanism.value), MechanismToken)
    ensures r.Reused? ==> r == Reused(f.stepper.value, f.mechanism.value)
    ensures r.Crashed? <==> f.LoadError?
    ensures r.Searched? ==> r.found == GetArduinoPorts(cs)
  {
    match LoadPortConfig(f)
    case Err(_) => Crashed
    case Ok((s, m)) =>
      if Truthy(s) && Truthy(m)
         && VerifyPort(verifyReply(s.value), StepperToken)
         && VerifyPort(verifyReply(m.value), MechanismToken)
      then Reused(s.value, m.value)
      else Searched(GetArduinoPorts(cs))
  }

  /** A saved pair that no longer answers leads to a fresh search, whose
      result is saved only when both controllers are found. */
  lemma StaleConfigSearches(s: string, m: string, verifyReply: string -> Reply, cs: seq<Candidate>)
    requires |s| > 0 && |m| > 0 && !VerifyPort(verifyReply(s), StepperToken)
    ensures RunPortFinder(Saved(Some(s), Some(m)), verifyReply, cs) == Searched(GetArduinoPorts(cs))
  {
  }
}
