/** `parse_line` of SDM_logic/dashboard.py: reads one record line back into
    a key/value mapping. The line is split on `", "`; a piece holding `": "`
    starts a new entry (its key is the text before the first `": "`), any
    other piece continues the current value, and the pieces of a value are
    rejoined with `", "`. */
module LogParser {
  import opened Values
  import opened Text
  import opened RecordFormat

  /** The loop variables of `parse_line`: `current_key`, `current_value` and
      `data`. */
  datatype ParseState = ParseState(key: Option<string>, value: seq<string>, data: map<string, string>)

  const Start := ParseState(None, [], map[])

  /** Python truthiness of `current_key`: `None` and `""` are both false. */
  predicate HasKey(st: ParseState) {
    st.key.Some? && |st.key.value| > 0
  }

  /** `data` with the pending entry stored, as `parse_line` does before each
      new key and once at the end. */
  function Saved(st: ParseState): (m: map<string, string>)
    ensures HasKey(st) ==> m == st.data[st.key.value := Join(st.value, PairSep)]
    ensures !HasKey(st) ==> m == st.data
  {
    if HasKey(st) then st.data[st.key.value := Join(st.value, PairSep)] else st.data
  }

  /** One iteration of the loop over the pieces. A falsy key is never stored
      and does not clear the pending value, so its text flows into the next
      entry. */
  function Feed(st: ParseState, part: string): (r: ParseState)
    ensures Contains(part, KeySep) ==>
      && r.key.Some? && |r.value| > 0 && !Contains(r.key.value, KeySep)
      && r.key.value + KeySep + r.value[|r.value| - 1] == part
      && r.data == Saved(st)
      && r.value[..|r.value| - 1] == (if HasKey(st) then [] else st.value)
    ensures !Contains(part, KeySep) ==> r == ParseState(st.key, st.value + [part], st.data)
  {
    if Contains(part, KeySep) then
      SeparatorsBorderFree();
      var (k, v) := SplitOnce(part, KeySep);
      if HasKey(st) then ParseState(Some(k), [v], Saved(st))
      else ParseState(Some(k), st.value + [v], st.data)
    else
      ParseState(st.key, st.value + [part], st.data)
  }

  function FeedAll(st: ParseState, parts: seq<string>): ParseState
    decreases |parts|
  {
    if |parts| == 0 then st else FeedAll(Feed(st, parts[0]), parts[1..])
  }

  /** `parse_line(line)`. */
  function ParseLine(line: string): map<string, string> {
    Saved(FeedAll(Start, Split(line, PairSep)))
  }

  // ---------------------------------------------------------------------
  // Folding facts

  lemma {:induction false} FeedAllAppend(st: ParseState, xs: seq<string>, ys: seq<string>)
    ensures FeedAll(st, xs + ys) == FeedAll(FeedAll(st, xs), ys)
    decreases |xs|
  {
    if |xs| > 0 {
      assert (xs + ys)[0] == xs[0];
      assert (xs + ys)[1..] == xs[1..] + ys;
      FeedAllAppend(Feed(st, xs[0]), xs[1..], ys);
    } else {
      assert xs + ys == ys;
    }
  }

  /** Pieces without `": "` only extend the pending value. */
  lemma {:induction false} FeedPlain(st: ParseState, parts: seq<string>)
    requires forall i :: 0 <= i < |parts| ==> !Contains(parts[i], KeySep)
    ensures FeedAll(st, parts) == ParseState(st.key, st.value + parts, st.data)
    decreases |parts|
  {
    if |parts| > 0 {
      FeedPlain(Feed(st, parts[0]), parts[1..]);
      assert st.value + [parts[0]] + parts[1..] == st.value + parts;
    }
  }

  // ---------------------------------------------------------------------
  // Entries that survive the round trip

  /** A key reads back as written: non-empty (else it is falsy) and free of
      both separators. */
  predicate KeySurvives(k: string) {
    |k| > 0 && !Contains(k, PairSep) && !Contains(k, KeySep)
  }

  /** A value reads back as written when none of its `", "`-pieces after the
      first holds `": "` (such a piece would start a new entry). */
  predicate ValueSurvives(v: string) {
    forall i :: 1 <= i < |Split(v, PairSep)| ==> !Contains(Split(v, PairSep)[i], KeySep)
  }

  /** No `", "` starts inside the key or its `": "`. */
  lemma KeyHeadFree(k: string, v: string)
    requires !Contains(k, PairSep)
    ensures forall j :: 0 <= j < |k + KeySep| ==> !OccursAt(k + KeySep + v, PairSep, j)
  {
    var s := k + KeySep + v;
    forall j | 0 <= j < |k + KeySep|
      ensures !OccursAt(s, PairSep, j)
    {
      if j + 2 <= |k| {
        assert s[j..j + 2] == k[j..j + 2];
        assert !OccursAt(k, PairSep, j);
      } else if j == |k| - 1 {
        WindowChar(s, PairSep, j, 1);
        assert s[j + 1] == ':';
      } else {
        WindowChar(s, PairSep, j, 0);
        assert s[j] == KeySep[j - |k|];
      }
    }
  }

  /** The pieces of one entry: the key glued to the first piece of its value,
      then the value's remaining pieces. */
  lemma EntryPieces(k: string, v: string)
    requires !Contains(k, PairSep)
    ensures Split(Entry((k, v)), PairSep) == [k + KeySep + Split(v, PairSep)[0]] + Split(v, PairSep)[1..]
  {
    KeyHeadFree(k, v);
    assert k + KeySep + v == (k + KeySep) + v;
    SplitBehind(k + KeySep, v, PairSep);
    assert (k + KeySep) + Split(v, PairSep)[0] == k + KeySep + Split(v, PairSep)[0];
  }

  /** The pending pieces an entry is appended to: none after a truthy key,
      the leftover ones after a falsy key. */
  function Pending(st: ParseState): seq<string> {
    if HasKey(st) then [] else st.value
  }

  /** Feeding the first piece of an entry. */
  lemma FeedKeyed(st: ParseState, k: string, w: string)
    requires !Contains(k, KeySep)
    ensures Feed(st, k + KeySep + w) == ParseState(Some(k), Pending(st) + [w], Saved(st))
  {
    SeparatorsBorderFree();
    SplitOnceOf(k, KeySep, w);
  }

  /** Feeding one entry: its key becomes current and its value's pieces are
      pending; the previous entry is stored if its key was truthy, and its
      pending pieces are kept in front otherwise. */
  lemma FeedEntry(st: ParseState, k: string, v: string)
    requires !Contains(k, PairSep) && !Contains(k, KeySep) && ValueSurvives(v)
    ensures FeedAll(st, Split(Entry((k, v)), PairSep))
         == ParseState(Some(k), Pending(st) + Split(v, PairSep), Saved(st))
  {
    var pieces := Split(v, PairSep);
    var head := k + KeySep + pieces[0];
    EntryPieces(k, v);
    FeedKeyed(st, k, pieces[0]);
    var st1 := ParseState(Some(k), Pending(st) + [pieces[0]], Saved(st));
    assert Split(Entry((k, v)), PairSep) == [head] + pieces[1..];
    assert Feed(st, head) == st1;
    assert forall i :: 0 <= i < |pieces[1..]| ==> !Contains(pieces[1..][i], KeySep) by {
      forall i | 0 <= i < |pieces[1..]|
        ensures !Contains(pieces[1..][i], KeySep)
      {
        assert pieces[1..][i] == pieces[i + 1];
      }
    }
    FeedPlain(st1, pieces[1..]);
    FeedCons(st, head, pieces[1..]);
    Regroup(Pending(st), pieces);
  }

  lemma Regroup(a: seq<string>, s: seq<string>)
    requires |s| > 0
    ensures a + [s[0]] + s[1..] == a + s
  {
    assert [s[0]] + s[1..] == s;
  }

  lemma FeedCons(st: ParseState, head: string, tail: seq<string>)
    ensures FeedAll(st, [head] + tail) == FeedAll(Feed(st, head), tail)
  {
    assert ([head] + tail)[0] == head;
    assert ([head] + tail)[1..] == tail;
  }

  /** Every entry of a record survives. */
  predicate Survives(fs: seq<Field>) {
    forall i :: 0 <= i < |fs| ==> KeySurvives(fs[i].0) && ValueSurvives(fs[i].1)
  }

  /** After an entry that starts from an empty pending value, the entry's key
      is current and storing it records the entry's value. */
  lemma FeedFreshEntry(st: ParseState, k: string, v: string)
    requires KeySurvives(k) && ValueSurvives(v)
    requires HasKey(st) || st.value == []
    ensures HasKey(FeedAll(st, Split(Entry((k, v)), PairSep)))
    ensures Saved(FeedAll(st, Split(Entry((k, v)), PairSep))) == Saved(st)[k := v]
  {
    FeedEntry(st, k, v);
    assert Pending(st) + Split(v, PairSep) == Split(v, PairSep);
  }

  /** The pieces of a record are the pieces of its entries, in order. */
  lemma RecordPieces(fs: seq<Field>)
    requires |fs| > 1
    ensures Split(Render(fs), PairSep) == Split(Entry(fs[0]), PairSep) + Split(Render(fs[1..]), PairSep)
  {
    SeparatorsBorderFree();
    RenderCons(fs);
    SplitAround(Entry(fs[0]), PairSep, Render(fs[1..]));
  }

  lemma {:induction false} FeedRecord(st: ParseState, fs: seq<Field>)
    requires |fs| > 0 && Survives(fs)
    requires HasKey(st) || st.value == []
    ensures Saved(FeedAll(st, Split(Render(fs), PairSep))) == Assign(Saved(st), fs)
    decreases |fs|
  {
    var k := fs[0].0;
    var v := fs[0].1;
    var first := Split(Entry((k, v)), PairSep);
    var st1 := FeedAll(st, first);
    FeedFreshEntry(st, k, v);
    if |fs| == 1 {
      assert Render(fs) == Entry((k, v));
    } else {
      var rest := Split(Render(fs[1..]), PairSep);
      RecordPieces(fs);
      FeedAllAppend(st, first, rest);
      assert Survives(fs[1..]) by {
        forall i | 0 <= i < |fs[1..]|
          ensures KeySurvives(fs[1..][i].0) && ValueSurvives(fs[1..][i].1)
        {
          assert fs[1..][i] == fs[i + 1];
        }
      }
      FeedRecord(st1, fs[1..]);
    }
  }

  /** Round trip: a record whose keys and values survive reads back as the
      mapping it denotes (later entries override earlier ones). */
  lemma ParseRender(fs: seq<Field>)
    requires Survives(fs)
    ensures ParseLine(Render(fs)) == Assign(map[], fs)
  {
    if |fs| == 0 {
      assert Render(fs) == "";
      SeparatorsBorderFree();
      FeedPlain(Start, Split("", PairSep));
    } else {
      FeedRecord(Start, fs);
    }
  }

  /** A line without `": "` has no entries. */
  lemma NoKeySeparator(line: string)
    requires !Contains(line, KeySep)
    ensures ParseLine(line) == map[]
  {
    SeparatorsBorderFree();
    var parts := Split(line, PairSep);
    forall i | 0 <= i < |parts|
      ensures !Contains(parts[i], KeySep)
    {
      JoinContains(parts, PairSep, i, KeySep);
    }
    FeedPlain(Start, parts);
  }

  /** A key written twice keeps its second value. */
  lemma RepeatedKeyLastWins(k: string, v1: string, v2: string)
    requires KeySurvives(k) && ValueSurvives(v1) && ValueSurvives(v2)
    ensures ParseLine(Render([(k, v1), (k, v2)])) == map[k := v2]
  {
    var fs := [(k, v1), (k, v2)];
    assert Survives(fs) by {
      forall i | 0 <= i < |fs| ensures KeySurvives(fs[i].0) && ValueSurvives(fs[i].1) {
        assert fs[i].0 == k;
      }
    }
    ParseRender(fs);
    assert fs[1..] == [(k, v2)];
    assert Assign(map[], fs) == Assign(map[k := v1], [(k, v2)]);
    assert Assign(map[k := v1], [(k, v2)]) == map[k := v1][k := v2];
  }

  /** An entry with an empty key is dropped, and its value is glued in front
      of the next entry's value. */
  lemma EmptyKeyLeaks(v1: string, k: string, v2: string)
    requires KeySurvives(k) && ValueSurvives(v1) && ValueSurvives(v2)
    ensures ParseLine(Render([("", v1), (k, v2)])) == map[k := v1 + PairSep + v2]
  {
    var fs := [("", v1), (k, v2)];
    var a := Split(Entry(("", v1)), PairSep);
    var b := Split(Entry((k, v2)), PairSep);
    RecordPieces(fs);
    assert Render(fs[1..]) == Entry((k, v2));
    FeedAllAppend(Start, a, b);
    FeedEntry(Start, "", v1);
    var st1 := ParseState(Some(""), Split(v1, PairSep), map[]);
    assert FeedAll(Start, a) == st1;
    FeedEntry(st1, k, v2);
    var st2 := ParseState(Some(k), Split(v1, PairSep) + Split(v2, PairSep), map[]);
    assert FeedAll(st1, b) == st2;
    JoinAppend(Split(v1, PairSep), Split(v2, PairSep), PairSep);
  }

  /** Text before the first entry is glued in front of that entry's value. */
  lemma LeadingTextLeaks(x: string, k: string, v: string)
    requires !Contains(x, PairSep) && !Contains(x, KeySep)
    requires KeySurvives(k) && ValueSurvives(v)
    ensures ParseLine(x + PairSep + Entry((k, v))) == map[k := x + PairSep + v]
  {
    SeparatorsBorderFree();
    var b := Split(Entry((k, v)), PairSep);
    SplitAround(x, PairSep, Entry((k, v)));
    SplitFree(x, PairSep);
    FeedAllAppend(Start, [x], b);
    var st1 := ParseState(None, [x], map[]);
    assert FeedAll(Start, [x]) == st1;
    FeedEntry(st1, k, v);
    var st2 := ParseState(Some(k), [x] + Split(v, PairSep), map[]);
    assert FeedAll(st1, b) == st2;
    JoinAppend([x], Split(v, PairSep), PairSep);
  }
}
