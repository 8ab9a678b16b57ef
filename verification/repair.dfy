/** `dict_to_list` with its field boundaries repaired.

    As written, the loop closes a pending component list or repeated field
    only when a key's depth says so, and compares field and repetition
    positions across field and segment boundaries; `Counterexamples` shows
    the messages this misreads. The reading below keeps the loop body as
    written and adds one rule: whenever a key starts a new field (its
    segment name or field position differs from the previous key's), what is
    pending is first attached to the segment it came from, and the depth
    bookkeeping starts afresh. The end of the dictionary is handled the same
    way. With that rule every message of well-shaped segments comes back
    from its dictionary. */
module Repair {
  import opened Results
  import opened Strings
  import opened Trees
  import opened Dicts
  import opened Mapping
  import opened Rebuild
  import opened RowsBack

  /** The field a key belongs to: its segment name and field position, as
      written in the key. */
  function FieldOf(key: string): (f: seq<string>)
    ensures |f| <= 2
  {
    var parts := Split(key, '.');
    if |parts| < 2 then parts else parts[..2]
  }

  /** The loop's variables, and the field of the previous key (none before
      the first). */
  datatype Reader = Reader(b: Builder, field: seq<string>)

  /** Attach what is pending to the previous key's segment and start the
      depth bookkeeping afresh. */
  function Close(b: Builder): Result<Builder> {
    var b1 :- Settle(b, b.prevSegment, b.prevSegment);
    Ok(b1.(prevDepth := 1))
  }

  /** One iteration: close the previous field if this key starts another,
      then the loop body as written. */
  function Advance(r: Reader, key: string, value: string): Result<Reader> {
    var f := FieldOf(key);
    var b0 :- if f != r.field then Close(r.b) else Ok(r.b);
    var b1 :- Step(b0, key, value, false);
    Ok(Reader(b1, f))
  }

  function Read(r: Reader, d: Dict<string>): Result<Reader>
    decreases |d|
  {
    if d == [] then Ok(r)
    else
      var r1 :- Advance(r, d[0].0, d[0].1);
      Read(r1, d[1..])
  }

  /** The repaired `dict_to_list`. */
  function FixedDictToList(d: Dict<string>): Result<seq<Tree>> {
    var r :- Read(Reader(Start, []), d);
    var b :- Close(r.b);
    Ok(Output(b.segments))
  }

  /** Nothing pending, and the segments built so far are `segs`. */
  predicate Clean(b: Builder, segs: Dict<seq<Tree>>) {
    b.segments == segs && b.subfields == [] && b.repeats == [] && b.repeatsList == [] && b.prevDepth == 1
  }

  /** The messages the repaired reading rebuilds: every segment a non-empty
      list of well-shaped fields. */
  predicate Filled(elist: seq<Tree>) {
    forall i :: 0 <= i < |elist| ==> IsSegment(elist[i]) && |elist[i].kids| >= 1
  }

  // ---- the loop ----

  lemma {:induction false} ReadConcat(r: Reader, x: Dict<string>, y: Dict<string>, r1: Reader)
    requires Read(r, x) == Ok(r1)
    ensures Read(r, x + y) == Read(r1, y)
    decreases |x|
  {
    if x == [] {
      assert x + y == y;
    } else {
      var r0 := Advance(r, x[0].0, x[0].1).value;
      assert (x + y)[0] == x[0];
      assert (x + y)[1..] == x[1..] + y;
      ReadConcat(r0, x[1..], y, r1);
    }
  }

  /** Within one field the repaired loop is the loop as written. */
  lemma {:induction false} ReadWithin(r: Reader, d: Dict<string>)
    requires forall k :: 0 <= k < |d| ==> FieldOf(d[k].0) == r.field
    requires Feed(r.b, d).Ok?
    ensures Read(r, d) == Ok(Reader(Feed(r.b, d).value, r.field))
    decreases |d|
  {
    if d != [] {
      var b1 := Step(r.b, d[0].0, d[0].1, false).value;
      assert Advance(r, d[0].0, d[0].1) == Ok(Reader(b1, r.field));
      ReadWithin(Reader(b1, r.field), d[1..]);
    }
  }

  /** Every key of field `j` of segment `name` names that field. */
  lemma FieldKeys(name: string, j: nat, f: Tree)
    requires '.' !in name
    ensures forall k :: 0 <= k < |FieldEntries(name, j, f)| ==>
      FieldOf(FieldEntries(name, j, f)[k].0) == [name, NatToString(j)]
  {
    var ps := Paths(f);
    forall k | 0 <= k < |FieldEntries(name, j, f)|
      ensures FieldOf(FieldEntries(name, j, f)[k].0) == [name, NatToString(j)]
    {
      var p := [j] + ps[k].path;
      assert Under(j, ps)[k].path == p;
      assert FieldEntries(name, j, f)[k].0 == name + Suffix(p);
      KeySplit(name, p);
      assert ([name] + Numerals(p))[..2] == [name, NatToString(j)];
    }
  }

  /** Different positions are written differently. */
  lemma NumeralsDiffer(i: nat, j: nat)
    requires i != j
    ensures NatToString(i) != NatToString(j)
  {
    ParseNatToString(i);
    ParseNatToString(j);
  }

  /** A field read by the repaired loop: the previous field is closed, then
      the field's entries are read as written. */
  lemma FieldRead(r: Reader, b0: Builder, segs: Dict<seq<Tree>>, name: string, items: seq<Tree>, j: nat, f: Tree)
    requires '.' !in name && IsField(f)
    requires r.field != [name, NatToString(j)]
    requires Close(r.b) == Ok(b0) && Ready(b0, segs, name, items)
    ensures Read(r, FieldEntries(name, j, f)).Ok?
    ensures Read(r, FieldEntries(name, j, f)).value.field == [name, NatToString(j)]
    ensures After(Read(r, FieldEntries(name, j, f)).value.b, segs, name, items, f, j)
  {
    var d := FieldEntries(name, j, f);
    var fld := [name, NatToString(j)];
    FieldFromReady(b0, segs, name, items, j, f);
    FieldSize(f);
    FieldKeys(name, j, f);
    assert |d| >= 1;
    var b1 := Step(b0, d[0].0, d[0].1, false).value;
    assert Feed(b0, d) == Feed(b1, d[1..]);
    assert Advance(r, d[0].0, d[0].1) == Ok(Reader(b1, fld));
    ReadWithin(Reader(b1, fld), d[1..]);
  }

  /** Closing a field read as `After` describes attaches it to its segment. */
  lemma CloseAfter(b: Builder, segs: Dict<seq<Tree>>, name: string, done: seq<Tree>, f: Tree, j: nat)
    requires IsField(f) && After(b, segs, name, done, f, j)
    ensures Close(b).Ok? && Clean(Close(b).value, segs + [(name, done + [f])])
  {
    PendingField(b, segs, name, done, f, j);
    if IsRepetitions(f) {
      SettleReps(b, segs, name, done, name);
    } else if IsComponents(f) {
      SettleComps(b, segs, name, done);
    }
  }

  /** The fields of a segment, read by the repaired loop from a state where
      closing leaves nothing pending. */
  lemma {:induction false} SegmentRead(r: Reader, b0: Builder, segs: Dict<seq<Tree>>, name: string,
                                       fields: seq<Tree>, n: nat)
    requires '.' !in name && 1 <= n <= |fields|
    requires forall i :: 0 <= i < |fields| ==> IsField(fields[i])
    requires r.field != [name, NatToString(1)]
    requires Close(r.b) == Ok(b0) && Ready(b0, segs, name, [])
    ensures Read(r, Keyed(name, KidsPaths(fields, n))).Ok?
    ensures Read(r, Keyed(name, KidsPaths(fields, n))).value.field == [name, NatToString(n)]
    ensures After(Read(r, Keyed(name, KidsPaths(fields, n))).value.b, segs, name, fields[..n - 1], fields[n - 1], n)
  {
    if n == 1 {
      assert KidsPaths(fields, 1) == [] + Under(1, Paths(fields[0]));
      assert [] + Under(1, Paths(fields[0])) == Under(1, Paths(fields[0]));
      assert fields[..0] == [];
      FieldRead(r, b0, segs, name, [], 1, fields[0]);
    } else {
      SegmentRead(r, b0, segs, name, fields, n - 1);
      var x := Keyed(name, KidsPaths(fields, n - 1));
      var r1 := Read(r, x).value;
      CloseAfter(r1.b, segs, name, fields[..n - 2], fields[n - 2], n - 1);
      Snoc(fields, n - 1);
      var b1 := Close(r1.b).value;
      assert name !in Keys(segs);
      RegisterLast(segs, name, fields[..n - 1]);
      NumeralsDiffer(n - 1, n);
      FieldRead(r1, b1, segs, name, fields[..n - 1], n, fields[n - 1]);
      KeyedConcat(name, KidsPaths(fields, n - 1), Under(n, Paths(fields[n - 1])));
      ReadConcat(r, x, FieldEntries(name, n, fields[n - 1]), r1);
      Snoc(fields, n);
    }
  }

  lemma FilledSegments(elist: seq<Tree>)
    requires Filled(elist)
    ensures Segments(elist)
  {
    forall i | 0 <= i < |elist|
      ensures elist[i].Node?
    {
      assert IsSegment(elist[i]);
    }
  }

  /** After the entries of the first `n` segments: the last field of the
      `n`-th segment has just been read, and every segment before it is
      attached. */
  predicate Through(r: Reader, elist: seq<Tree>, table: seq<string>, n: nat)
    requires Segments(elist) && NamesFit(table, |elist|) && 1 <= n <= |elist|
  {
    var fs := elist[n - 1].kids;
    |fs| >= 1 && r.field == [table[n - 1], NatToString(|fs|)] &&
    After(r.b, Built(elist, table, n - 1), table[n - 1], fs[..|fs| - 1], fs[|fs| - 1], |fs|)
  }

  /** Closing after the entries of the first `n` segments attaches all of
      them. */
  lemma CloseThrough(r: Reader, elist: seq<Tree>, table: seq<string>, n: nat)
    requires Filled(elist) && NamesFit(table, |elist|) && 1 <= n <= |elist|
    requires Segments(elist) && Through(r, elist, table, n)
    ensures Close(r.b).Ok? && Clean(Close(r.b).value, Built(elist, table, n))
  {
    var fs := elist[n - 1].kids;
    assert IsSegment(elist[n - 1]);
    CloseAfter(r.b, Built(elist, table, n - 1), table[n - 1], fs[..|fs| - 1], fs[|fs| - 1], |fs|);
    Snoc(fs, |fs|);
    assert fs[..|fs|] == fs;
    BuiltSnoc(elist, table, n);
  }

  /** The entries of the first segment, read from the start. */
  lemma FirstRead(elist: seq<Tree>, table: seq<string>)
    requires Filled(elist) && NamesFit(table, |elist|) && 1 <= |elist|
    requires Segments(elist)
    ensures Read(Reader(Start, []), Entries(elist, table, 1)).Ok?
    ensures Through(Read(Reader(Start, []), Entries(elist, table, 1)).value, elist, table, 1)
  {
    var name := table[0];
    var fs := elist[0].kids;
    assert IsSegment(elist[0]) && elist[0] == Node(fs);
    assert Entries(elist, table, 0) == [] && Built(elist, table, 0) == [];
    assert Entries(elist, table, 1) == [] + Keyed(name, KidsPaths(fs, |fs|));
    assert [] + Keyed(name, KidsPaths(fs, |fs|)) == Keyed(name, KidsPaths(fs, |fs|));
    var none: Dict<seq<Tree>> := [];
    assert Register(none, name) == none + [(name, [])];
    assert Close(Start) == Ok(Start);
    var e := Keyed(name, KidsPaths(fs, |fs|));
    SegmentRead(Reader(Start, []), Start, [], name, fs, |fs|);
    var r := Read(Reader(Start, []), e).value;
    assert r.field == [table[0], NatToString(|fs|)];
    assert After(r.b, Built(elist, table, 0), name, fs[..|fs| - 1], fs[|fs| - 1], |fs|);
  }

  /** The entries of the `n`-th segment, read after those of the segment
      before it. */
  lemma NextRead(r: Reader, elist: seq<Tree>, table: seq<string>, n: nat)
    requires Filled(elist) && NamesFit(table, |elist|) && 2 <= n <= |elist|
    requires Segments(elist) && Through(r, elist, table, n - 1)
    ensures Read(r, Keyed(table[n - 1], Paths(elist[n - 1]))).Ok?
    ensures Through(Read(r, Keyed(table[n - 1], Paths(elist[n - 1]))).value, elist, table, n)
  {
    var name := table[n - 1];
    var fs := elist[n - 1].kids;
    assert IsSegment(elist[n - 1]) && elist[n - 1] == Node(fs);
    CloseThrough(r, elist, table, n - 1);
    var b0 := Close(r.b).value;
    BuiltFresh(elist, table, n - 1, n - 1);
    RegisterNew(Built(elist, table, n - 1), name);
    assert table[n - 2] != name;
    SegmentRead(r, b0, Built(elist, table, n - 1), name, fs, |fs|);
  }

  /** The entries of the first `n` segments, read from the start, leave the
      reader as `Through` describes. */
  predicate ReadsThrough(elist: seq<Tree>, table: seq<string>, n: nat)
    requires Segments(elist) && NamesFit(table, |elist|) && 1 <= n <= |elist|
  {
    Read(Reader(Start, []), Entries(elist, table, n)).Ok? &&
    Through(Read(Reader(Start, []), Entries(elist, table, n)).value, elist, table, n)
  }

  lemma {:induction false} MessageRead(elist: seq<Tree>, table: seq<string>, n: nat)
    requires Filled(elist) && NamesFit(table, |elist|) && 1 <= n <= |elist|
    requires Segments(elist)
    ensures ReadsThrough(elist, table, n)
  {
    if n == 1 {
      FirstRead(elist, table);
    } else {
      MessageRead(elist, table, n - 1);
      MessageStep(elist, table, n);
    }
  }

  lemma MessageStep(elist: seq<Tree>, table: seq<string>, n: nat)
    requires Filled(elist) && NamesFit(table, |elist|) && 2 <= n <= |elist|
    requires Segments(elist) && ReadsThrough(elist, table, n - 1)
    ensures ReadsThrough(elist, table, n)
  {
    var r := Read(Reader(Start, []), Entries(elist, table, n - 1)).value;
    NextRead(r, elist, table, n);
    var rest := Keyed(table[n - 1], Paths(elist[n - 1]));
    assert Entries(elist, table, n) == Entries(elist, table, n - 1) + rest;
    ReadConcat(Reader(Start, []), Entries(elist, table, n - 1), rest, r);
  }

  /** The repaired `dict_to_list` undoes `list_to_dict` for every message
      whose segments are non-empty lists of well-shaped fields and whose
      names are distinct, non-empty and free of dots. */
  lemma FixedRoundTrip(elist: seq<Tree>, table: seq<string>)
    requires Filled(elist) && NamesFit(table, |elist|)
    ensures ListToDict(elist, table).Ok?
    ensures FixedDictToList(ListToDict(elist, table).value) == Ok(elist)
  {
    ListToDictEntries(elist, table);
    var n := |elist|;
    if n == 0 {
      assert Entries(elist, table, 0) == [];
      assert Close(Start) == Ok(Start);
    } else {
      FilledSegments(elist);
      MessageRead(elist, table, n);
      var r := Read(Reader(Start, []), Entries(elist, table, n)).value;
      CloseThrough(r, elist, table, n);
      OutputBuilt(elist, table);
    }
  }

  /** Where the loop as written already rebuilds the message, the repair
      changes nothing. */
  lemma FixAgrees(elist: seq<Tree>, table: seq<string>)
    requires Rebuildable(elist) && NamesFit(table, |elist|)
    ensures ListToDict(elist, table).Ok?
    ensures FixedDictToList(ListToDict(elist, table).value) == DictToList(ListToDict(elist, table).value)
  {
    assert Filled(elist) by {
      forall i | 0 <= i < |elist|
        ensures IsSegment(elist[i]) && |elist[i].kids| >= 1
      {
        assert SegmentOk(elist[i]);
      }
    }
    FixedRoundTrip(elist, table);
    DictRoundTrip(elist, table);
  }
}
