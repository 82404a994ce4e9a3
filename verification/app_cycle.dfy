/** One pass of the sorting loop of `main` (SDM_logic/app.py): wait for an
    object, classify it, log it, compact, open the matching compartment,
    read the fill levels, flush when a compartment is full, and reset the
    mechanism. The camera, the classifier, the JSON parser and each serial
    exchange enter as inputs. */
module Cycle {
  import opened Values
  import opened Bins
  import ClassifierOutput
  import Records
  import Commands

  /** How watching for an object ended: `detect_new_object` reported one,
      or it raised. */
  datatype Watch = ObjectSeen | WatchRaised

  /** What `get_trash_classification` gave: a text, something that is not
      a text (whose `replace` raises), or an exception. */
  datatype Classification = Text(raw: string) | NotText | ClassifierRaised

  /** What `json.loads` made of the cleaned text: a `JSONDecodeError`, an
      object, or another JSON value (which cannot be indexed by a key). */
  datatype Parsed = Malformed | Object(fields: map<string, Records.JsonValue>) | NotObject

  /** The external world of one pass. */
  datatype World = World(
    watch: Watch,
    classification: Classification,
    parse: string -> Parsed,
    dbPoll: Records.Poll,
    timestamp: string,
    exchange: Commands.Verb -> Commands.Exchange,
    sensorTurns: seq<Commands.Incoming>)

  /** How a pass ends and what it leaves: the log, and the verbs sent, in
      order. `Abandoned` is the `continue` after a JSON error; `Faulted` is
      any other exception, which the retry counter sees. */
  datatype Pass =
    | Completed(log: string, sent: seq<Commands.Verb>)
    | Abandoned(log: string)
    | Faulted(log: string, sent: seq<Commands.Verb>)

  function Log(p: Pass): string {
    match p
    case Completed(log, _) => log
    case Abandoned(log) => log
    case Faulted(log, _) => log
  }

  function Sent(p: Pass): seq<Commands.Verb> {
    match p
    case Completed(_, sent) => sent
    case Abandoned(_) => []
    case Faulted(_, sent) => sent
  }

  /** Python's `max` of a non-empty list. */
  function Max(vs: seq<int>): (m: int)
    requires |vs| > 0
    ensures forall i :: 0 <= i < |vs| ==> vs[i] <= m
    ensures exists i :: 0 <= i < |vs| && vs[i] == m
  {
    if |vs| == 1 then vs[0]
    else
      var m := Max(vs[1..]);
      assert forall i :: 1 <= i < |vs| ==> vs[i] == vs[1..][i - 1];
      var k :| 0 <= k < |vs[1..]| && vs[1..][k] == m;
      assert vs[k + 1] == m;
      if vs[0] > m then vs[0] else m
  }

  /** The fill reading above which the compartments are flushed. */
  const FlushAbove := 10

  /** `if sensor_data: if max(sensor_data) > 10`: a missing or empty reading
      never flushes. */
  predicate NeedsFlush(reading: Option<seq<int>>) {
    reading.Some? && |reading.value| > 0 && Max(reading.value) > FlushAbove
  }

  /** Flushing is asked for exactly when some value exceeds the limit. */
  lemma NeedsFlushIff(reading: Option<seq<int>>)
    ensures NeedsFlush(reading) <==>
      reading.Some? && exists i :: 0 <= i < |reading.value| && reading.value[i] > FlushAbove
  {
  }

  /** The verbs of the actuation sequence, in the order `main` sends them. */
  function Actuation(bin: Option<BinCode>, reading: Option<seq<int>>): (vs: seq<Commands.Verb>)
    ensures |vs| == 3 + (if bin.Some? then 1 else 0) + (if NeedsFlush(reading) then 1 else 0)
    ensures vs[0] == Commands.Compress && vs[|vs| - 1] == Commands.Restart
    ensures bin.Some? ==> vs[1] == Commands.Open(bin.value)
    ensures bin.None? ==> forall i :: 0 <= i < |vs| ==> !vs[i].Open?
    ensures vs[if bin.Some? then 2 else 1] == Commands.GetData
    ensures NeedsFlush(reading) <==> vs[|vs| - 2] == Commands.Flush
  {
    [Commands.Compress]
    + (if bin.Some? then [Commands.Open(bin.value)] else [])
    + [Commands.GetData]
    + (if NeedsFlush(reading) then [Commands.Flush] else [])
    + [Commands.Restart]
  }

  /** Sends the verbs one after another until one raises: the verbs sent,
      and whether all went through. */
  function SendAll(verbs: seq<Commands.Verb>, exchange: Commands.Verb -> Commands.Exchange): (r: (seq<Commands.Verb>, bool))
    ensures r.1 ==> r.0 == verbs
    ensures !r.1 ==> 0 < |r.0| <= |verbs| && r.0 == verbs[..|r.0|] && exchange(r.0[|r.0| - 1]).OtherFault?
    ensures forall i :: 0 <= i < |r.0| - 1 ==> !exchange(r.0[i]).OtherFault?
    ensures r.1 <==> forall i :: 0 <= i < |verbs| ==> !exchange(verbs[i]).OtherFault?
    decreases |verbs|
  {
    if |verbs| == 0 then ([], true)
    else if exchange(verbs[0]).OtherFault? then ([verbs[0]], false)
    else
      var rest := SendAll(verbs[1..], exchange);
      assert verbs == [verbs[0]] + verbs[1..];
      ([verbs[0]] + rest.0, rest.1)
  }

  /** The fill levels the pass reads back. */
  function LevelsRead(w: World): Option<seq<int>> {
    Commands.GetSensorData(w.exchange(Commands.GetData), w.sensorTurns).values
  }

  /** Prefixes of a sequence made of three parts. */
  lemma PrefixOfParts<T>(x: seq<T>, y: seq<T>, z: seq<T>, k: nat)
    ensures k <= |x| ==> (x + y + z)[..k] == x[..k]
    ensures k <= |z| ==> (x + y + z)[..|x| + |y| + k] == x + y + z[..k]
  {
    if k <= |x| {
      assert (x + y + z)[..k] == x[..k];
    }
    if k <= |z| {
      assert (x + y + z)[..|x| + |y| + k] == x + y + z[..k];
    }
  }

  /** The actuation part of a pass for the compartment `bin` and the fill
      levels read back: the verbs sent and whether all went through. The
      sensor poll never raises (`get_sensor_data` catches everything), so
      the verbs before it and the verbs after it are sent as two runs
      around it. */
  function Actuate(bin: Option<BinCode>, levels: Option<seq<int>>, exchange: Commands.Verb -> Commands.Exchange): (r: (seq<Commands.Verb>, bool))
    ensures r.1 ==> r.0 == Actuation(bin, levels)
    ensures !r.1 ==> var full := Actuation(bin, levels);
      0 < |r.0| <= |full| && r.0 == full[..|r.0|] && exchange(r.0[|r.0| - 1]).OtherFault?
    ensures r.1 <==> var full := Actuation(bin, levels);
      forall i :: 0 <= i < |full| && full[i] != Commands.GetData ==> !exchange(full[i]).OtherFault?
  {
    var before, after := BeforePoll(bin), AfterPoll(levels);
    ActuationAroundPoll(bin, levels);
    ActuationNoRaise(bin, levels, exchange);
    var first := SendAll(before, exchange);
    if !first.1 then
      PrefixOfParts(before, [Commands.GetData], after, |first.0|);
      first
    else
      var second := SendAll(after, exchange);
      PrefixOfParts(before, [Commands.GetData], after, |second.0|);
      (before + [Commands.GetData] + second.0, second.1)
  }

  /** The commands `main` sends before the sensor poll. */
  function BeforePoll(bin: Option<BinCode>): (vs: seq<Commands.Verb>)
    ensures Commands.GetData !in vs
  {
    [Commands.Compress] + (if bin.Some? then [Commands.Open(bin.value)] else [])
  }

  /** The commands `main` sends after the sensor poll. */
  function AfterPoll(levels: Option<seq<int>>): (vs: seq<Commands.Verb>)
    ensures Commands.GetData !in vs
  {
    (if NeedsFlush(levels) then [Commands.Flush] else []) + [Commands.Restart]
  }

  /** The actuation sequence is the sensor poll with those two runs around
      it. */
  lemma ActuationAroundPoll(bin: Option<BinCode>, levels: Option<seq<int>>)
    ensures Actuation(bin, levels) == BeforePoll(bin) + [Commands.GetData] + AfterPoll(levels)
  {
  }

  /** No actuation command but the poll raises iff none before the poll and
      none after it does. */
  lemma ActuationNoRaise(bin: Option<BinCode>, levels: Option<seq<int>>, exchange: Commands.Verb -> Commands.Exchange)
    ensures (forall i :: 0 <= i < |Actuation(bin, levels)| && Actuation(bin, levels)[i] != Commands.GetData
               ==> !exchange(Actuation(bin, levels)[i]).OtherFault?)
        <==> (forall i :: 0 <= i < |BeforePoll(bin)| ==> !exchange(BeforePoll(bin)[i]).OtherFault?)
             && (forall i :: 0 <= i < |AfterPoll(levels)| ==> !exchange(AfterPoll(levels)[i]).OtherFault?)
  {
    ActuationAroundPoll(bin, levels);
    NoRaiseAround(BeforePoll(bin), AfterPoll(levels), exchange);
  }

  /** No command around the sensor poll raises iff none before it and none
      after it does. */
  lemma NoRaiseAround(x: seq<Commands.Verb>, y: seq<Commands.Verb>, exchange: Commands.Verb -> Commands.Exchange)
    requires Commands.GetData !in x && Commands.GetData !in y
    ensures (forall i :: 0 <= i < |x + [Commands.GetData] + y| && (x + [Commands.GetData] + y)[i] != Commands.GetData
               ==> !exchange((x + [Commands.GetData] + y)[i]).OtherFault?)
        <==> (forall i :: 0 <= i < |x| ==> !exchange(x[i]).OtherFault?)
             && (forall i :: 0 <= i < |y| ==> !exchange(y[i]).OtherFault?)
  {
    var s := x + [Commands.GetData] + y;
    assert forall i :: 0 <= i < |x| ==> s[i] == x[i];
    assert forall i :: 0 <= i < |y| ==> s[|x| + 1 + i] == y[i];
  }

  /** The JSON value the classifier's text parses to. */
  function ParsedReply(w: World): Parsed
    requires w.classification.Text?
  {
    w.parse(ClassifierOutput.CleanJsonString(w.classification.raw))
  }

  /** The category of the JSON object, when it is a text. */
  function CategoryText(fields: map<string, Records.JsonValue>): Option<string> {
    if "Category" in fields && fields["Category"].JString? then Some(fields["Category"].text) else None
  }

  /** How the front of a pass ends: the `continue` after a JSON error, an
      exception before anything is logged, or an object with both keys to
      be logged (with its category, when that is a text). */
  datatype Front = Skipped | Raised | Logged(fields: map<string, Records.JsonValue>, category: Option<string>)

  /** Watching, classifying, cleaning, parsing and the two key lookups. */
  function FrontOf(w: World): (f: Front)
    ensures f.Skipped? <==> w.watch.ObjectSeen? && w.classification.Text? && ParsedReply(w).Malformed?
    ensures f.Logged? <==>
      (w.watch.ObjectSeen? && w.classification.Text? && ParsedReply(w).Object?
       && "Item" in ParsedReply(w).fields && "Category" in ParsedReply(w).fields)
    ensures f.Logged? ==> f.fields == ParsedReply(w).fields && f.category == CategoryText(f.fields)
  {
    if w.watch.WatchRaised? || !w.classification.Text? then Raised
    else
      match ParsedReply(w)
      case Malformed => Skipped
      case NotObject => Raised
      case Object(fields) =>
        if "Item" in fields && "Category" in fields then Logged(fields, CategoryText(fields)) else Raised
  }

  /** One pass, from the wait for an object to the mechanism reset. */
  function RunPass(log: string, w: World): (p: Pass)
    ensures w.watch.WatchRaised? || !w.classification.Text? ==> p == Faulted(log, [])
    ensures p.Abandoned? ==> p.log == log
  {
    match FrontOf(w)
    case Skipped => Abandoned(log)
    case Raised => Faulted(log, [])
    case Logged(fields, category) =>
      var log1 := Records.UpdateDatabase(log, w.dbPoll, w.timestamp, fields);
      if category.None? then Faulted(log1, [])
      else
        var r := Actuate(ClassifierOutput.GetBinCode(category.value), LevelsRead(w), w.exchange);
        if r.1 then Completed(log1, r.0) else Faulted(log1, r.0)
  }

  // ---------------------------------------------------------------------
  // Properties

  /** A completed pass logged the object and sent the actuation sequence:
      compaction, the compartment of its category (none for an unknown
      category), the sensor request, a flush exactly when a level exceeds
      the limit, and the reset. */
  lemma CompletedPass(log: string, w: World)
    requires RunPass(log, w).Completed?
    ensures w.watch.ObjectSeen? && w.classification.Text?
    ensures var parsed := ParsedReply(w);
      && parsed.Object? && "Item" in parsed.fields && CategoryText(parsed.fields).Some?
      && Log(RunPass(log, w)) == Records.UpdateDatabase(log, w.dbPoll, w.timestamp, parsed.fields)
      && Sent(RunPass(log, w)) == Actuation(ClassifierOutput.GetBinCode(CategoryText(parsed.fields).value), LevelsRead(w))
  {
  }

  /** At most one compartment is opened, and it is the one the category
      names. */
  lemma OpensOnlyItsCompartment(bin: Option<BinCode>, reading: Option<seq<int>>, i: nat)
    requires i < |Actuation(bin, reading)| && Actuation(bin, reading)[i].Open?
    ensures bin.Some? && i == 1 && Actuation(bin, reading)[i] == Commands.Open(bin.value)
  {
  }

  /** The flush command is sent iff a fill level exceeds the limit. */
  lemma FlushIffFull(bin: Option<BinCode>, reading: Option<seq<int>>)
    ensures Commands.Flush in Actuation(bin, reading) <==>
      reading.Some? && exists i :: 0 <= i < |reading.value| && reading.value[i] > FlushAbove
  {
    NeedsFlushIff(reading);
    var vs := Actuation(bin, reading);
    if Commands.Flush in vs {
      var k :| 0 <= k < |vs| && vs[k] == Commands.Flush;
      assert NeedsFlush(reading);
    }
  }

  /** Only compaction goes to the stepper link; everything else in a pass
      goes to the mechanism link. */
  lemma StepperGetsOnlyCompaction(bin: Option<BinCode>, reading: Option<seq<int>>)
    ensures forall i :: 0 <= i < |Actuation(bin, reading)| ==>
      (Commands.Route(Actuation(bin, reading)[i]) == Commands.Stepper <==> i == 0)
  {
    var vs := Actuation(bin, reading);
    forall i | 0 <= i < |vs|
      ensures Commands.Route(vs[i]) == Commands.Stepper <==> i == 0
    {
      assert i > 0 ==> vs[i] != Commands.Compress;
    }
  }

  /** A JSON error abandons the pass: nothing is logged and nothing sent. */
  lemma MalformedAbandons(log: string, w: World)
    requires w.watch.ObjectSeen? && w.classification.Text?
    requires ParsedReply(w).Malformed?
    ensures RunPass(log, w) == Abandoned(log)
  {
  }

  /** A missing `Item` or `Category` is a fault caught before anything is
      logged or sent. */
  lemma MissingKeyFaults(log: string, w: World)
    requires w.watch.ObjectSeen? && w.classification.Text?
    requires var p := ParsedReply(w);
      p.Object? && !("Item" in p.fields && "Category" in p.fields)
    ensures RunPass(log, w) == Faulted(log, [])
  {
  }

  /** A category that is not a text is a fault too, but only after the
      record has been logged. */
  lemma NonTextCategoryLoggedThenFaults(log: string, w: World, shown: string)
    requires w.watch.ObjectSeen? && w.classification.Text?
    requires var p := ParsedReply(w);
      p.Object? && "Item" in p.fields && "Category" in p.fields && p.fields["Category"] == Records.JOther(shown)
    ensures var p := ParsedReply(w);
      RunPass(log, w) == Faulted(Records.UpdateDatabase(log, w.dbPoll, w.timestamp, p.fields), [])
  {
  }

  /** An unrecognised category still compacts, polls and resets, with no
      compartment opened and no error. */
  lemma UnknownCategoryOpensNothing(reading: Option<seq<int>>)
    ensures forall i :: 0 <= i < |Actuation(None, reading)| ==> !Actuation(None, reading)[i].Open?
  {
  }

  /** Once the object is logged with a text category, any actuation
      command that raises (the sensor poll never does) faults the pass, so
      the retry counter sees it. */
  lemma RaisingCommandFaults(log: string, w: World, i: nat)
    requires w.watch.ObjectSeen? && w.classification.Text?
    requires var p := ParsedReply(w);
      p.Object? && "Item" in p.fields && "Category" in p.fields && CategoryText(p.fields).Some?
    requires var full := Actuation(ClassifierOutput.GetBinCode(CategoryText(ParsedReply(w).fields).value), LevelsRead(w));
      i < |full| && full[i] != Commands.GetData && w.exchange(full[i]).OtherFault?
    ensures RunPass(log, w).Faulted?
  {
    var f := FrontOf(w);
    assert f.Logged? && f.category == CategoryText(ParsedReply(w).fields);
    var r := Actuate(ClassifierOutput.GetBinCode(f.category.value), LevelsRead(w), w.exchange);
    assert !r.1;
  }

  /** A command that raises stops the pass there: what was sent is a prefix
      of the actuation sequence ending with the failing verb. */
  lemma FaultStopsActuation(log: string, w: World)
    ensures var pass := RunPass(log, w);
      pass.Faulted? && |pass.sent| > 0 ==>
      && w.classification.Text? && ParsedReply(w).Object?
      && CategoryText(ParsedReply(w).fields).Some?
      && var full := Actuation(ClassifierOutput.GetBinCode(CategoryText(ParsedReply(w).fields).value), LevelsRead(w));
         |pass.sent| <= |full| && pass.sent == full[..|pass.sent|]
         && w.exchange(pass.sent[|pass.sent| - 1]).OtherFault?
  {
    var pass := RunPass(log, w);
    if pass.Faulted? && |pass.sent| > 0 {
      var f := FrontOf(w);
      assert f.Logged? && f.category.Some?;
      var r := Actuate(ClassifierOutput.GetBinCode(f.category.value), LevelsRead(w), w.exchange);
      assert pass.sent == r.0 && !r.1;
    }
  }
}
