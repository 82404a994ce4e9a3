/** The one-line record format shared by the writer (SDM_logic/app.py,
    `update_database`) and the reader (SDM_logic/dashboard.py, `parse_line`):
    `Key: value` entries joined by `", "`. */
module RecordFormat {
  import opened Text

  /** Between two entries. */
  const PairSep := ", "
  /** Between a key and its value. */
  const KeySep := ": "

  /** One `Key: value` entry. */
  type Field = (string, string)

  lemma SeparatorsBorderFree()
    ensures |PairSep| == 2 && BorderFree(PairSep)
    ensures |KeySep| == 2 && BorderFree(KeySep)
  {
    assert PairSep[1..][0] != PairSep[..1][0];
    assert KeySep[1..][0] != KeySep[..1][0];
  }

  function Entry(f: Field): (r: string)
    ensures |r| == |f.0| + 2 + |f.1|
  {
    f.0 + KeySep + f.1
  }

  function Entries(fs: seq<Field>): (r: seq<string>)
    ensures |r| == |fs|
    ensures forall i :: 0 <= i < |fs| ==> r[i] == Entry(fs[i])
  {
    if |fs| == 0 then [] else [Entry(fs[0])] + Entries(fs[1..])
  }

  /** The text of a record: its entries, in order, joined by `", "`. */
  function Render(fs: seq<Field>): string {
    Join(Entries(fs), PairSep)
  }

  /** A record of more than one entry is its first entry, a separator and the
      rest of the record. */
  lemma RenderCons(fs: seq<Field>)
    requires |fs| > 1
    ensures Render(fs) == Entry(fs[0]) + PairSep + Render(fs[1..])
  {
    assert Entries(fs)[1..] == Entries(fs[1..]);
  }

  /** The mapping a record denotes: each entry assigns its key in turn, so a
      later entry overrides an earlier one with the same key. */
  function Assign(m: map<string, string>, fs: seq<Field>): map<string, string>
    decreases |fs|
  {
    if |fs| == 0 then m else Assign(m[fs[0].0 := fs[0].1], fs[1..])
  }

  /** Assigning two runs of entries is assigning the first, then the second. */
  lemma {:induction false} AssignAppend(m: map<string, string>, xs: seq<Field>, ys: seq<Field>)
    ensures Assign(m, xs + ys) == Assign(Assign(m, xs), ys)
    decreases |xs|
  {
    if |xs| > 0 {
      assert (xs + ys)[0] == xs[0];
      assert (xs + ys)[1..] == xs[1..] + ys;
      AssignAppend(m[xs[0].0 := xs[0].1], xs[1..], ys);
      assert Assign(m, xs + ys) == Assign(m[xs[0].0 := xs[0].1], xs[1..] + ys);
    } else {
      assert xs + ys == ys;
    }
  }

  /** Entries with other keys leave a key alone. */
  lemma {:induction false} AssignElsewhere(m: map<string, string>, fs: seq<Field>, k: string)
    requires forall i :: 0 <= i < |fs| ==> fs[i].0 != k
    ensures k in Assign(m, fs) <==> k in m
    ensures k in m ==> Assign(m, fs)[k] == m[k]
    decreases |fs|
  {
    if |fs| > 0 {
      AssignElsewhere(m[fs[0].0 := fs[0].1], fs[1..], k);
    }
  }

  /** The keys of the mapping are the starting keys and the record's keys. */
  lemma {:induction false} AssignKeys(m: map<string, string>, fs: seq<Field>, k: string)
    ensures k in Assign(m, fs) <==> k in m || exists i :: 0 <= i < |fs| && fs[i].0 == k
    decreases |fs|
  {
    if |fs| > 0 {
      AssignKeys(m[fs[0].0 := fs[0].1], fs[1..], k);
      if exists i :: 0 <= i < |fs[1..]| && fs[1..][i].0 == k {
        var i :| 0 <= i < |fs[1..]| && fs[1..][i].0 == k;
        assert fs[i + 1].0 == k;
      }
      if exists i :: 0 <= i < |fs| && fs[i].0 == k {
        var i :| 0 <= i < |fs| && fs[i].0 == k;
        if i > 0 {
          assert fs[1..][i - 1].0 == k;
        }
      }
    }
  }

  /** A repeated key keeps the value of its last entry. */
  lemma AssignLastWins(m: map<string, string>, xs: seq<Field>, k: string, v: string, ys: seq<Field>)
    requires forall i :: 0 <= i < |ys| ==> ys[i].0 != k
    ensures k in Assign(m, xs + [(k, v)] + ys)
    ensures Assign(m, xs + [(k, v)] + ys)[k] == v
  {
    AssignAppend(m, xs + [(k, v)], ys);
    AssignAppend(m, xs, [(k, v)]);
    AssignElsewhere(Assign(m, xs + [(k, v)]), ys, k);
  }
}
