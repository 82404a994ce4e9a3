/** The record line `update_database` (SDM_logic/app.py) puts at the top of
    the log, and what the dashboard reads back from the top of that log. */
module Records {
  import opened Values
  import opened Text
  import opened Decimal
  import opened RecordFormat
  import opened LogParser

  /** A value of the classifier's JSON object. Non-string values are written
      with Python's `str()`, which is not modelled: `shown` is that text. */
  datatype JsonValue = JString(text: string) | JOther(shown: string)

  /** What an f-string prints for a JSON value. */
  function Shown(v: JsonValue): string {
    match v
    case JString(t) => t
    case JOther(t) => t
  }

  /** `result_data.get(key, default)`, as printed. */
  function ShownOr(result: map<string, JsonValue>, key: string, default: string): (r: string)
    ensures key in result ==> r == Shown(result[key])
    ensures key !in result ==> r == default
  {
    if key in result then Shown(result[key]) else default
  }

  const BinId := "BIN001"
  const Location := "New Student Activity Center (New SAC)"
  const NoTips := "No recycling information available"
  const NoFacts := "No biodegradable information available"
  const Unknown := "Unknown"
  /** Written for every level when the poll does not give exactly four. */
  const NoLevel := "00"

  /** The four level texts: the poll's values when it returned exactly four,
      `"00"` for each otherwise (no answer, an empty list or another count). */
  function LevelTexts(reading: Option<seq<int>>): (r: seq<string>)
    ensures |r| == 4
    ensures reading.Some? && |reading.value| == 4 ==> forall i :: 0 <= i < 4 ==> r[i] == IntToString(reading.value[i])
    ensures !(reading.Some? && |reading.value| == 4) ==> forall i :: 0 <= i < 4 ==> r[i] == NoLevel
  {
    if reading.Some? && |reading.value| == 4 then
      var v := reading.value;
      [IntToString(v[0]), IntToString(v[1]), IntToString(v[2]), IntToString(v[3])]
    else
      [NoLevel, NoLevel, NoLevel, NoLevel]
  }

  /** Each level text reads back, with `int()`, as the level it was written
      from, or as 0 when the reading was not used. */
  lemma LevelTextsReadBack(reading: Option<seq<int>>, i: nat)
    requires i < 4
    ensures reading.Some? && |reading.value| == 4 ==> ParseInt(LevelTexts(reading)[i]) == Some(reading.value[i])
    ensures !(reading.Some? && |reading.value| == 4) ==> ParseInt(LevelTexts(reading)[i]) == Some(0)
  {
    if reading.Some? && |reading.value| == 4 {
      ParseIntOfText(reading.value[i]);
    } else {
      NoLevelReadsZero();
    }
  }

  /** The default level text reads as 0. */
  lemma NoLevelReadsZero()
    ensures ParseInt(NoLevel) == Some(0)
  {
    assert Trimmed(NoLevel);
    StripTrimmed(NoLevel);
    assert DigitGroups(NoLevel);
    assert DropUnderscores(NoLevel) == NoLevel;
  }

  /** The keys of a record, in the order they are written. */
  const RecordKeys: seq<string> := [
    "Dustbin Code", "Dustbin Location", "BR", "BNR", "NBR", "NBNR", "Last used",
    "Recyclable tips", "Bio degradable facts", "Item", "Category"]

  /** The entries of a record, in the order they are written. */
  function RecordFields(levels: seq<string>, timestamp: string, result: map<string, JsonValue>): (fs: seq<Field>)
    requires |levels| == 4
    ensures |fs| == |RecordKeys| == 11
    ensures forall i :: 0 <= i < 11 ==> fs[i].0 == RecordKeys[i]
    ensures fs[0] == ("Dustbin Code", BinId) && fs[1] == ("Dustbin Location", Location)
    ensures fs[2] == ("BR", levels[0]) && fs[3] == ("BNR", levels[1])
    ensures fs[4] == ("NBR", levels[2]) && fs[5] == ("NBNR", levels[3])
    ensures fs[6] == ("Last used", timestamp)
    ensures fs[7] == ("Recyclable tips", ShownOr(result, "Recyclable tips", NoTips))
    ensures fs[8] == ("Bio degradable facts", ShownOr(result, "Bio degradable facts", NoFacts))
    ensures fs[9] == ("Item", ShownOr(result, "Item", Unknown))
    ensures fs[10] == ("Category", ShownOr(result, "Category", Unknown))
  {
    [ ("Dustbin Code", BinId),
      ("Dustbin Location", Location),
      ("BR", levels[0]),
      ("BNR", levels[1]),
      ("NBR", levels[2]),
      ("NBNR", levels[3]),
      ("Last used", timestamp),
      ("Recyclable tips", ShownOr(result, "Recyclable tips", NoTips)),
      ("Bio degradable facts", ShownOr(result, "Bio degradable facts", NoFacts)),
      ("Item", ShownOr(result, "Item", Unknown)),
      ("Category", ShownOr(result, "Category", Unknown)) ]
  }

  /** The line written: the rendered record and a newline. */
  function RecordLine(reading: Option<seq<int>>, timestamp: string, result: map<string, JsonValue>): string {
    Render(RecordFields(LevelTexts(reading), timestamp, result)) + "\n"
  }

  /** How `update_database` obtains the levels: it builds its own command
      manager (which may raise) and polls it. */
  datatype Poll = ManagerFailed | Polled(reading: Option<seq<int>>)

  /** What a file opened with `'r'` reads as: universal newlines turn every
      `"\r\n"` and every lone `'\r'` into `'\n'`. The log stands for the
      file's bytes; the program writes only `'\n'` line ends. */
  function Universal(s: string): (r: string)
    ensures '\r' !in r
    ensures |r| <= |s| && (|r| == 0 <==> |s| == 0)
    decreases |s|
  {
    if |s| == 0 then ""
    else if s[0] == '\r' then "\n" + Universal(if |s| > 1 && s[1] == '\n' then s[2..] else s[1..])
    else [s[0]] + Universal(s[1..])
  }

  /** Text without a carriage return reads as it is. */
  lemma {:induction false} UniversalPlain(s: string)
    requires '\r' !in s
    ensures Universal(s) == s
    decreases |s|
  {
    if |s| > 0 {
      UniversalPlain(s[1..]);
      assert s == [s[0]] + s[1..];
    }
  }

  /** Reading is done piece by piece, as long as the first piece does not
      end in a carriage return that could pair with a newline after it. */
  lemma {:induction false} UniversalAppend(a: string, b: string)
    requires a == "" || a[|a| - 1] != '\r'
    ensures Universal(a + b) == Universal(a) + Universal(b)
    decreases |a|, 1
  {
    if |a| == 0 {
      assert a + b == b;
    } else if a[0] == '\r' {
      UniversalAppendCr(a, b);
    } else {
      assert (a + b)[0] == a[0];
      assert (a + b)[1..] == a[1..] + b;
      UniversalAppend(a[1..], b);
    }
  }

  /** `UniversalAppend` when the first piece starts with a carriage return,
      which cannot be its last character. */
  lemma {:induction false} UniversalAppendCr(a: string, b: string)
    requires |a| > 1 && a[0] == '\r' && a[|a| - 1] != '\r'
    ensures Universal(a + b) == Universal(a) + Universal(b)
    decreases |a|, 0
  {
    var k := if a[1] == '\n' then 2 else 1;
    assert (a + b)[0] == '\r' && (a + b)[1] == a[1];
    assert (a + b)[k..] == a[k..] + b;
    UniversalAppend(a[k..], b);
  }

  /** Reading what was read changes nothing more. */
  lemma UniversalIdempotent(s: string)
    ensures Universal(Universal(s)) == Universal(s)
  {
    UniversalPlain(Universal(s));
  }

  /** A carriage return and newline pair reads as one newline. */
  lemma CrLfReads(rest: string)
    ensures Universal("\r\n" + rest) == "\n" + Universal(rest)
  {
    assert ("\r\n" + rest)[2..] == rest;
  }

  /** A lone carriage return reads as a newline. */
  lemma CrReads(t: string, rest: string)
    requires '\r' !in t && |t| > 0 && t[0] != '\n'
    ensures Universal("\r" + t + rest) == "\n" + t + Universal(rest)
  {
    assert ("\r" + t + rest)[1..] == t + rest;
    UniversalAppend(t, rest);
    UniversalPlain(t);
  }

  /** `update_database`: the new line goes before the old log as
      `readlines()` gave it, line ends normalised, and the two are written
      back; if building the command manager raises, the file is left as it
      is. */
  function UpdateDatabase(log: string, poll: Poll, timestamp: string, result: map<string, JsonValue>): (r: string)
    ensures poll.ManagerFailed? ==> r == log
    ensures poll.Polled? ==> |r| > |Universal(log)| && r[|r| - |Universal(log)|..] == Universal(log)
    ensures poll.Polled? ==> r[..|r| - |Universal(log)|] == RecordLine(poll.reading, timestamp, result)
  {
    match poll
    case ManagerFailed => log
    case Polled(reading) => RecordLine(reading, timestamp, result) + Universal(log)
  }

  /** An old log without carriage returns follows the new line unchanged. */
  lemma UpdateKeepsPlainLog(log: string, reading: Option<seq<int>>, timestamp: string, result: map<string, JsonValue>)
    requires '\r' !in log
    ensures UpdateDatabase(log, Polled(reading), timestamp, result) == RecordLine(reading, timestamp, result) + log
  {
    UniversalPlain(log);
  }

  /** A log written by `update_database` from safe texts holds no carriage
      return, so the next update keeps all of it verbatim. */
  lemma UpdateWritesPlain(log: string, reading: Option<seq<int>>, timestamp: string, result: map<string, JsonValue>)
    requires RecordTextsSafe(timestamp, result)
    ensures '\r' !in UpdateDatabase(log, Polled(reading), timestamp, result)
  {
    RenderAvoids(reading, timestamp, result, '\r');
  }

  // ---------------------------------------------------------------------
  // Reading the newest record back

  /** The text up to and including the first newline, or all of it; `None`
      for an empty text. */
  function LineOf(text: string): (r: Option<string>)
    ensures r.None? <==> text == ""
    ensures r.Some? ==> r.value <= text && |r.value| > 0
    ensures r.Some? ==> !Contains(r.value[..|r.value| - 1], "\n")
    ensures r.Some? && |r.value| < |text| ==> r.value[|r.value| - 1] == '\n'
  {
    if text == "" then None
    else match IndexOf(text, "\n")
      case None =>
        InfixFree(text, 0, |text| - 1, "\n");
        Some(text)
      case Some(i) =>
        PrefixFree(text, "\n", i);
        assert text[..i + 1][..i] == text[..i];
        assert text[i..i + 1] == "\n";
        Some(text[..i + 1])
  }

  /** `f.readlines()[0]`: the first line of the file as read, ended by a
      newline, a carriage return or both; `None` for an empty log (the
      dashboard then reports an error). */
  function FirstLine(log: string): (r: Option<string>)
    ensures r.None? <==> log == ""
    ensures r.Some? ==> r.value <= Universal(log) && |r.value| > 0 && '\r' !in r.value
    ensures r.Some? ==> !Contains(r.value[..|r.value| - 1], "\n")
    ensures r.Some? && |r.value| < |Universal(log)| ==> r.value[|r.value| - 1] == '\n'
  {
    LineOfPlain(Universal(log));
    LineOf(Universal(log))
  }

  /** The first line of a text without carriage returns has none either. */
  lemma LineOfPlain(text: string)
    requires '\r' !in text
    ensures LineOf(text).Some? ==> '\r' !in LineOf(text).value
  {
    var r := LineOf(text);
    if r.Some? {
      assert forall i :: 0 <= i < |r.value| ==> r.value[i] == text[i];
    }
  }

  /** A carriage return, alone or before a newline, ends the line the
      dashboard reads, and reads as a newline: a value holding one cuts the
      record short. */
  lemma CarriageReturnEndsLine(line: string, rest: string)
    requires !Contains(line, "\n") && '\r' !in line
    ensures FirstLine(line + "\r" + rest) == Some(line + "\n")
  {
    var after := CarriageReturnReads(rest);
    assert line + "\r" + rest == line + ("\r" + rest);
    UniversalPlain(line);
    UniversalAppend(line, "\r" + rest);
    assert line + ("\n" + after) == line + "\n" + after;
    FirstLineText(line, after);
  }

  /** A carriage return at the front reads as a newline, whatever follows. */
  lemma CarriageReturnReads(rest: string) returns (after: string)
    ensures Universal("\r" + rest) == "\n" + after
  {
    var cr := "\r" + rest;
    assert cr[1..] == rest;
    assert |rest| > 0 ==> cr[2..] == rest[1..];
    after := Universal(if |rest| > 0 && rest[0] == '\n' then rest[1..] else rest);
  }

  /** A line without a newline, with a newline and more text after it:
      its first line is the line and the newline. */
  lemma FirstLineText(line: string, rest: string)
    requires !Contains(line, "\n")
    ensures LineOf(line + "\n" + rest) == Some(line + "\n")
  {
    var s := line + "\n" + rest;
    assert BorderFree("\n");
    IndexOfAfter(line, "\n", rest);
    assert s[..|line| + 1] == line + "\n";
  }

  /** A line with no line end of its own, ended by a newline and put before
      a log, is the log's first line. */
  lemma FirstLineOfPrepended(line: string, log: string)
    requires !Contains(line, "\n") && '\r' !in line
    ensures FirstLine(line + "\n" + log) == Some(line + "\n")
  {
    UniversalAppend(line + "\n", log);
    UniversalPlain(line + "\n");
    FirstLineText(line, Universal(log));
  }

  /** A value that reads back as written still does with the line's
      newline after it: the newline only extends its last `", "`-piece. */
  lemma SurvivesNewline(v: string)
    requires ValueSurvives(v)
    ensures ValueSurvives(v + "\n")
  {
    SeparatorsBorderFree();
    var parts := Split(v, PairSep);
    var n := |parts|;
    var parts' := parts[..n - 1] + [parts[n - 1] + "\n"];
    JoinAppendLast(parts, PairSep, "\n");
    NewlineKeepsFree(parts[n - 1], PairSep);
    forall i | 0 <= i < n
      ensures !Contains(parts'[i], PairSep)
    {
      if i < n - 1 {
        assert parts'[i] == parts[i];
      }
    }
    SplitJoin(parts', PairSep);
    forall i | 1 <= i < n
      ensures !Contains(parts'[i], KeySep)
    {
      if i < n - 1 {
        assert parts'[i] == parts[i];
      } else {
        NewlineKeepsFree(parts[n - 1], KeySep);
      }
    }
  }

  /** A text without `": "` survives as a value. */
  lemma NoKeySepPieces(v: string)
    requires !Contains(v, KeySep)
    ensures ValueSurvives(v)
  {
    var parts := Split(v, PairSep);
    forall i | 1 <= i < |parts|
      ensures !Contains(parts[i], KeySep)
    {
      JoinContains(parts, PairSep, i, KeySep);
    }
  }

  /** A text without a given character does not contain any text starting
      with it. */
  lemma NoLeadChar(s: string, p: string)
    requires |p| > 0 && p[0] !in s
    ensures !Contains(s, p)
  {
    forall j | 0 <= j <= |s| - |p|
      ensures !OccursAt(s, p, j)
    {
      WindowChar(s, p, j, 0);
    }
  }

  /** A value that reads back as written wherever it sits in the line: no
      `": "` in a `", "`-piece after its first, and no line end of either
      kind. */
  predicate SafeValue(v: string) {
    ValueSurvives(v) && '\n' !in v && '\r' !in v
  }

  /** The classifier's value for `key`, when it gives one, is safe. */
  predicate ShownSafe(result: map<string, JsonValue>, key: string) {
    key in result ==> SafeValue(Shown(result[key]))
  }

  /** The texts the clock and the classifier contribute to a record are all
      safe; other keys of the classifier's result are never written. */
  predicate RecordTextsSafe(timestamp: string, result: map<string, JsonValue>) {
    && SafeValue(timestamp)
    && ShownSafe(result, "Recyclable tips")
    && ShownSafe(result, "Bio degradable facts")
    && ShownSafe(result, "Item")
    && ShownSafe(result, "Category")
  }

  lemma NoColonSafe(v: string)
    requires ':' !in v && '\n' !in v && '\r' !in v
    ensures SafeValue(v)
  {
    NoLeadChar(v, KeySep);
    NoKeySepPieces(v);
  }

  /** The text of an integer is a sign and digits, so it is safe. */
  lemma IntTextSafe(n: int)
    ensures SafeValue(IntToString(n))
  {
    var t := IntToString(n);
    forall i | 0 <= i < |t|
      ensures t[i] != ':' && t[i] != '\n' && t[i] != '\r'
    {
      if n < 0 && i > 0 {
        assert IsDigit(t[1..][i - 1]);
      } else if n >= 0 {
        assert IsDigit(t[i]);
      }
    }
    NoColonSafe(t);
  }

  lemma NoLevelSafe()
    ensures SafeValue(NoLevel)
  {
    NoColonSafe(NoLevel);
  }

  lemma LevelTextsSafe(reading: Option<seq<int>>)
    ensures forall i :: 0 <= i < 4 ==> SafeValue(LevelTexts(reading)[i])
  {
    forall i | 0 <= i < 4
      ensures SafeValue(LevelTexts(reading)[i])
    {
      if reading.Some? && |reading.value| == 4 {
        IntTextSafe(reading.value[i]);
      } else {
        NoLevelSafe();
      }
    }
  }

  /** The record's keys read back, hold no line end and are all different. */
  lemma KeysSafe()
    ensures forall i :: 0 <= i < |RecordKeys| ==> KeySurvives(RecordKeys[i]) && '\n' !in RecordKeys[i] && '\r' !in RecordKeys[i]
    ensures forall i, j :: 0 <= i < j < |RecordKeys| ==> RecordKeys[i] != RecordKeys[j]
  {
    forall i | 0 <= i < |RecordKeys|
      ensures KeySurvives(RecordKeys[i]) && '\n' !in RecordKeys[i] && '\r' !in RecordKeys[i]
    {
      KeysPlain();
      PlainKey(RecordKeys[i]);
    }
    forall i, j | 0 <= i < j < |RecordKeys|
      ensures RecordKeys[i] != RecordKeys[j]
    {
      assert |RecordKeys[i]| != |RecordKeys[j]| || RecordKeys[i][0] != RecordKeys[j][0];
    }
  }

  lemma KeysPlain()
    ensures forall i :: 0 <= i < |RecordKeys| ==> Plain(RecordKeys[i]) && |RecordKeys[i]| > 0
  {
    FirstKeysPlain();
    LastKeysPlain();
  }

  lemma FirstKeysPlain()
    ensures Plain("Dustbin Code") && Plain("Dustbin Location") && Plain("BR") && Plain("BNR") && Plain("NBR")
  {
  }

  lemma LastKeysPlain()
    ensures Plain("NBNR") && Plain("Last used") && Plain("Recyclable tips")
    ensures Plain("Bio degradable facts") && Plain("Item") && Plain("Category")
  {
  }

  /** No key of a record holds a line end. */
  lemma KeysLineFree(c: char)
    requires c == '\n' || c == '\r'
    ensures forall i :: 0 <= i < |RecordKeys| ==> c !in RecordKeys[i]
  {
    KeysPlain();
  }

  lemma PlainKey(k: string)
    requires Plain(k) && |k| > 0
    ensures KeySurvives(k) && '\n' !in k && '\r' !in k
  {
    NoLeadChar(k, PairSep);
    NoLeadChar(k, KeySep);
  }

  /** No comma, colon or line end anywhere in the text. */
  predicate Plain(s: string) {
    forall i :: 0 <= i < |s| ==> s[i] != ',' && s[i] != ':' && s[i] != '\n' && s[i] != '\r'
  }

  /** Every value of a record is safe. */
  lemma ValuesSafe(reading: Option<seq<int>>, timestamp: string, result: map<string, JsonValue>)
    requires RecordTextsSafe(timestamp, result)
    ensures forall i :: 0 <= i < 11 ==> SafeValue(RecordFields(LevelTexts(reading), timestamp, result)[i].1)
  {
    forall i | 0 <= i < 11
      ensures SafeValue(RecordFields(LevelTexts(reading), timestamp, result)[i].1)
    {
      ValueSafeAt(reading, timestamp, result, i);
    }
  }

  /** No value of a record from safe texts holds a line end. */
  lemma ValuesLineFree(reading: Option<seq<int>>, timestamp: string, result: map<string, JsonValue>, c: char)
    requires RecordTextsSafe(timestamp, result) && (c == '\n' || c == '\r')
    ensures forall i :: 0 <= i < 11 ==> c !in RecordFields(LevelTexts(reading), timestamp, result)[i].1
  {
    ValuesSafe(reading, timestamp, result);
  }

  /** One value of a record is safe (one case per position keeps each
      proof small). */
  lemma ValueSafeAt(reading: Option<seq<int>>, timestamp: string, result: map<string, JsonValue>, i: nat)
    requires RecordTextsSafe(timestamp, result) && i < 11
    ensures SafeValue(RecordFields(LevelTexts(reading), timestamp, result)[i].1)
  {
    var fs := RecordFields(LevelTexts(reading), timestamp, result);
    if i == 0 {
      BinIdSafe();
    } else if i == 1 {
      LocationSafe();
    } else if i < 6 {
      LevelTextsSafe(reading);
      assert fs[i].1 == LevelTexts(reading)[i - 2];
    } else if i == 7 {
      NoTipsSafe();
      ShownOrSafe(result, "Recyclable tips", NoTips);
    } else if i == 8 {
      NoFactsSafe();
      ShownOrSafe(result, "Bio degradable facts", NoFacts);
    } else if i == 9 {
      UnknownSafe();
      ShownOrSafe(result, "Item", Unknown);
    } else if i == 10 {
      UnknownSafe();
      ShownOrSafe(result, "Category", Unknown);
    }
  }

  lemma BinIdSafe() ensures SafeValue(BinId) { BinIdWords(); WordsSafe(BinId); }
  lemma BinIdWords() ensures Words(BinId) { }
  lemma LocationSafe() ensures SafeValue(Location) { LocationWords(); WordsSafe(Location); }
  lemma LocationWords() ensures Words(Location) { }
  lemma NoTipsSafe() ensures SafeValue(NoTips) { NoTipsWords(); WordsSafe(NoTips); }
  lemma NoTipsWords() ensures Words(NoTips) { }
  lemma NoFactsSafe() ensures SafeValue(NoFacts) { NoFactsWords(); WordsSafe(NoFacts); }
  lemma NoFactsWords() ensures Words(NoFacts) { }
  lemma UnknownSafe() ensures SafeValue(Unknown) { UnknownWords(); WordsSafe(Unknown); }
  lemma UnknownWords() ensures Words(Unknown) { }

  /** Letters, digits, spaces and parentheses only. */
  predicate Words(s: string) {
    forall i :: 0 <= i < |s| ==> WordChar(s[i])
  }

  predicate WordChar(c: char) {
    ('a' <= c <= 'z') || ('A' <= c <= 'Z') || ('0' <= c <= '9') || c == ' ' || c == '(' || c == ')'
  }

  lemma WordsSafe(v: string)
    requires Words(v)
    ensures SafeValue(v)
  {
    assert ':' !in v && '\n' !in v && '\r' !in v;
    NoColonSafe(v);
  }

  lemma ShownOrSafe(result: map<string, JsonValue>, key: string, default: string)
    requires ShownSafe(result, key)
    requires SafeValue(default)
    ensures SafeValue(ShownOr(result, key, default))
  {
  }

  /** No newline inside a joined text whose pieces and separator have none. */
  lemma {:induction false} JoinAvoids(parts: seq<string>, sep: string, c: char)
    requires c !in sep && forall i :: 0 <= i < |parts| ==> c !in parts[i]
    ensures c !in Join(parts, sep)
    decreases |parts|
  {
    if |parts| > 1 {
      JoinAvoids(parts[1..], sep, c);
    }
  }

  /** Text added after a record lands in its last value. */
  lemma {:induction false} RenderAppendLast(fs: seq<Field>, t: string)
    requires |fs| > 0
    ensures Render(fs) + t == Render(fs[..|fs| - 1] + [(fs[|fs| - 1].0, fs[|fs| - 1].1 + t)])
    decreases |fs|
  {
    var last := (fs[|fs| - 1].0, fs[|fs| - 1].1 + t);
    var fs' := fs[..|fs| - 1] + [last];
    if |fs| == 1 {
      assert fs' == [last];
    } else {
      RenderCons(fs);
      RenderCons(fs');
      assert fs'[0] == fs[0];
      assert fs'[1..] == fs[1..][..|fs| - 2] + [last];
      RenderAppendLast(fs[1..], t);
    }
  }

  /** What the dashboard reads from the log right after `update_database`:
      the new record, with the line's newline kept at the end of its last
      value ("Category"). */
  lemma NewestRecordReadBack(log: string, reading: Option<seq<int>>, timestamp: string, result: map<string, JsonValue>)
    requires RecordTextsSafe(timestamp, result)
    ensures FirstLine(UpdateDatabase(log, Polled(reading), timestamp, result)) == Some(RecordLine(reading, timestamp, result))
    ensures ParseLine(RecordLine(reading, timestamp, result))
         == Assign(map[], RecordFields(LevelTexts(reading), timestamp, result)[..10]
                          + [("Category", ShownOr(result, "Category", Unknown) + "\n")])
  {
    RecordComesFirst(log, reading, timestamp, result);
    RecordLineParses(reading, timestamp, result);
  }

  /** The new record is the first line of the log. */
  lemma RecordComesFirst(log: string, reading: Option<seq<int>>, timestamp: string, result: map<string, JsonValue>)
    requires RecordTextsSafe(timestamp, result)
    ensures FirstLine(UpdateDatabase(log, Polled(reading), timestamp, result)) == Some(RecordLine(reading, timestamp, result))
  {
    var fs := RecordFields(LevelTexts(reading), timestamp, result);
    RenderAvoids(reading, timestamp, result, '\n');
    RenderAvoids(reading, timestamp, result, '\r');
    NoLeadChar(Render(fs), "\n");
    FirstLineOfPrepended(Render(fs), Universal(log));
  }

  /** A rendered record from safe texts holds no line end. */
  lemma RenderAvoids(reading: Option<seq<int>>, timestamp: string, result: map<string, JsonValue>, c: char)
    requires RecordTextsSafe(timestamp, result) && (c == '\n' || c == '\r')
    ensures c !in Render(RecordFields(LevelTexts(reading), timestamp, result))
  {
    var fs := RecordFields(LevelTexts(reading), timestamp, result);
    KeysLineFree(c);
    ValuesLineFree(reading, timestamp, result, c);
    forall i | 0 <= i < |Entries(fs)|
      ensures c !in Entries(fs)[i]
    {
      assert Entries(fs)[i] == fs[i].0 + KeySep + fs[i].1;
    }
    JoinAvoids(Entries(fs), PairSep, c);
  }

  /** The record line parses as its fields, the newline ending the last
      value. */
  lemma RecordLineParses(reading: Option<seq<int>>, timestamp: string, result: map<string, JsonValue>)
    requires RecordTextsSafe(timestamp, result)
    ensures ParseLine(RecordLine(reading, timestamp, result))
         == Assign(map[], RecordFields(LevelTexts(reading), timestamp, result)[..10]
                          + [("Category", ShownOr(result, "Category", Unknown) + "\n")])
  {
    var fs := RecordFields(LevelTexts(reading), timestamp, result);
    var fs' := fs[..10] + [("Category", ShownOr(result, "Category", Unknown) + "\n")];
    KeysSafe();
    ValuesSafe(reading, timestamp, result);
    RenderAppendLast(fs, "\n");
    forall i | 0 <= i < |fs'|
      ensures KeySurvives(fs'[i].0) && ValueSurvives(fs'[i].1)
    {
      if i < 10 {
        assert fs'[i] == fs[i];
      } else {
        SurvivesNewline(fs[10].1);
      }
    }
    ParseRender(fs');
  }

  /** The dashboard's view of the newest record: every key once, each of the
      first ten keys with the value written for it, and the category with the
      line's newline after it. */
  lemma NewestRecordFields(log: string, reading: Option<seq<int>>, timestamp: string, result: map<string, JsonValue>)
    requires RecordTextsSafe(timestamp, result)
    ensures var m := ParseLine(RecordLine(reading, timestamp, result));
      && (forall k :: k in m <==> k in RecordKeys)
      && (forall i :: 0 <= i < 10 ==> m[RecordKeys[i]] == RecordFields(LevelTexts(reading), timestamp, result)[i].1)
      && m["Category"] == ShownOr(result, "Category", Unknown) + "\n"
  {
    NewestRecordReadBack(log, reading, timestamp, result);
    var fs := RecordFields(LevelTexts(reading), timestamp, result);
    var fs' := fs[..10] + [("Category", ShownOr(result, "Category", Unknown) + "\n")];
    assert forall i :: 0 <= i < 11 ==> fs'[i].0 == RecordKeys[i];
    DistinctKeysRead(fs');
    assert fs'[10].1 == ShownOr(result, "Category", Unknown) + "\n";
    assert forall i :: 0 <= i < 10 ==> fs'[i].1 == fs[i].1;
  }

  /** A record written with exactly the record keys reads back key by key. */
  lemma DistinctKeysRead(fs: seq<Field>)
    requires |fs| == |RecordKeys| && forall i :: 0 <= i < |fs| ==> fs[i].0 == RecordKeys[i]
    ensures forall k :: k in Assign(map[], fs) <==> k in RecordKeys
    ensures forall i :: 0 <= i < |fs| ==> Assign(map[], fs)[RecordKeys[i]] == fs[i].1
  {
    KeysSafe();
    forall k
      ensures k in Assign(map[], fs) <==> k in RecordKeys
    {
      AssignKeys(map[], fs, k);
    }
    forall i | 0 <= i < |fs|
      ensures Assign(map[], fs)[RecordKeys[i]] == fs[i].1
    {
      LastEntryWins(fs, i);
    }
  }

  /** In a record whose keys are all different, each key maps to its own
      value. */
  lemma LastEntryWins(fs: seq<Field>, i: nat)
    requires i < |fs|
    requires forall j :: i < j < |fs| ==> fs[j].0 != fs[i].0
    ensures fs[i].0 in Assign(map[], fs) && Assign(map[], fs)[fs[i].0] == fs[i].1
  {
    AssignLastWins(map[], fs[..i], fs[i].0, fs[i].1, fs[i + 1..]);
    assert fs[..i] + [(fs[i].0, fs[i].1)] + fs[i + 1..] == fs;
  }
}
