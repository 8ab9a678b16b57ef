/** The way back from the dictionary view (`dict_to_list`).

    The entries are read in order. The number of `.`-separated positions in
    a key tells a plain field (one), a component (two) or a component of a
    repetition (three); comparing it with the previous key's tells whether
    a component list or a repeated field has just started or ended.
    Components and repetitions are gathered in pending lists and attached to
    their segment once the next field, or the end of the dictionary, shows
    that they are complete. */
module Rebuild {
  import opened Results
  import opened Strings
  import opened Trees
  import opened Dicts
  import opened Mapping

  /** The loop's variables: the segments built so far (insertion-ordered,
      keyed by segment name), the pending component list, the pending
      repetition and the finished repetitions of the pending repeated field,
      and what the previous key said. */
  datatype Builder = Builder(
    segments: Dict<seq<Tree>>,
    subfields: seq<string>,
    repeats: seq<string>,
    repeatsList: seq<seq<string>>,
    prevSegment: string,
    prevDepth: int,
    prevSubfieldPos: int,
    prevRepeatPos: int)

  const Start: Builder := Builder([], [], [], [], "", 1, 1, 1)

  /** A component list holding `vs`. */
  function Components(vs: seq<string>): Tree {
    Node(LeafList(vs))
  }

  /** A repeated field whose repetitions hold `rs`. */
  function Repetitions(rs: seq<seq<string>>): Tree {
    Node(seq(|rs|, r requires 0 <= r < |rs| => Components(rs[r])))
  }

  /** `segments[id].append(item)`: KeyError when `id` is not a segment. */
  function Append(segs: Dict<seq<Tree>>, id: string, item: Tree): (r: Result<Dict<seq<Tree>>>)
    ensures r.Ok? <==> id in Keys(segs)
    ensures r.Err? ==> r.fault == KeyError
  {
    if id in Keys(segs) then Ok(Put(segs, id, Get(segs, id) + [item])) else Err(KeyError)
  }

  /** `if segment_id not in segments: segments[segment_id] = []`. */
  function Register(segs: Dict<seq<Tree>>, id: string): (r: Dict<seq<Tree>>)
    ensures id in Keys(r)
  {
    if id in Keys(segs) then segs
    else
      var r := Put(segs, id, []);
      assert Keys(r)[|segs|] == r[|segs|].0 == id;
      r
  }

  /** A pending repeated field, completed by its last repetition, goes to
      the current segment. */
  function FlushRepeats(b: Builder, id: string): Result<Builder> {
    if b.repeatsList == [] then Ok(b)
    else
      var rl := b.repeatsList + (if b.repeats != [] then [b.repeats] else []);
      var segs :- Append(b.segments, id, Repetitions(rl));
      Ok(b.(segments := segs, repeatsList := [], repeats := [], prevRepeatPos := 1))
  }

  /** A pending component list goes to the previous key's segment when the
      segment has just changed, else to the current one. */
  function FlushSubfields(b: Builder, id: string, prev: string): Result<Builder> {
    if b.subfields == [] then Ok(b)
    else
      var target := if id != prev then prev else id;
      var segs :- Append(b.segments, target, Components(b.subfields));
      Ok(b.(segments := segs, subfields := [], prevSubfieldPos := 1))
  }

  /** Both flushes, as done before a plain field and at the end. */
  function Settle(b: Builder, id: string, prev: string): Result<Builder> {
    var b1 :- FlushRepeats(b, id);
    FlushSubfields(b1, id, prev)
  }

  /** The body of the loop for one key, split on `.` into `parts`, before
      the end-of-dictionary flush and the update of the `prev_` variables. */
  function Core(b: Builder, parts: seq<string>, value: string): Result<Builder>
    requires |parts| >= 1
  {
    var id := parts[0];
    var depth := |parts| - 1;
    if depth == b.prevDepth then
      if depth == 1 then
        var segs :- Append(b.segments, id, Leaf(value));
        Ok(b.(segments := segs))
      else if depth == 2 then
        var j :- ParseInt(parts[1]);
        var b1 :- if b.prevSubfieldPos < j then
                    var segs :- Append(b.segments, id, Components(b.subfields));
                    Ok(b.(segments := segs, subfields := [], prevSubfieldPos := j))
                  else Ok(b);
        Ok(b1.(subfields := b1.subfields + [value]))
      else if depth == 3 then
        var r :- ParseInt(parts[2]);
        var b1 := if b.prevRepeatPos < r then
                    b.(repeatsList := b.repeatsList + [b.repeats], repeats := [], prevRepeatPos := r)
                  else b;
        Ok(b1.(repeats := b1.repeats + [value]))
      else Ok(b)
    else if depth > b.prevDepth then
      if depth == 2 then
        var j :- ParseInt(parts[1]);
        Ok(b.(subfields := b.subfields + [value], prevSubfieldPos := j))
      else if depth == 3 then
        var b1 :- if b.subfields != [] then
                    var segs :- Append(b.segments, id, Components(b.subfields));
                    Ok(b.(segments := segs, subfields := []))
                  else Ok(b);
        var r :- ParseInt(parts[2]);
        Ok(b1.(repeats := b1.repeats + [value], prevRepeatPos := r))
      else Ok(b)
    else
      if depth == 1 then
        var b1 :- Settle(b, id, b.prevSegment);
        var segs :- Append(b1.segments, id, Leaf(value));
        Ok(b1.(segments := segs))
      else if depth == 2 then
        var rl := b.repeatsList + (if b.repeats != [] then [b.repeats] else []);
        var segs :- Append(b.segments, id, Repetitions(rl));
        var j :- ParseInt(parts[1]);
        Ok(b.(segments := segs, subfields := b.subfields + [value], prevSubfieldPos := j,
              repeatsList := [], repeats := [], prevRepeatPos := 1))
      else Ok(b)
  }

  /** One iteration: register the segment, handle the key, flush what is
      pending when it is the last key, remember the key's segment and
      depth. */
  function Step(b: Builder, key: string, value: string, last: bool): Result<Builder> {
    StepParts(b, Split(key, '.'), value, last)
  }

  /** The iteration on a key already split into its `parts`. */
  function StepParts(b: Builder, parts: seq<string>, value: string, last: bool): Result<Builder>
    requires |parts| >= 1
  {
    var id := parts[0];
    var b1 :- Core(b.(segments := Register(b.segments, id)), parts, value);
    var b2 :- if last then Settle(b1, id, b.prevSegment) else Ok(b1);
    Ok(b2.(prevSegment := id, prevDepth := |parts| - 1))
  }

  /** The iterations for entries that are not the last. */
  function Feed(b: Builder, d: Dict<string>): Result<Builder>
    decreases |d|
  {
    if d == [] then Ok(b)
    else
      var b1 :- Step(b, d[0].0, d[0].1, false);
      Feed(b1, d[1..])
  }

  /** The segments' item lists, in order of first appearance. */
  function Output(segs: Dict<seq<Tree>>): (elist: seq<Tree>)
    ensures |elist| == |segs|
    ensures forall i :: 0 <= i < |segs| ==> elist[i] == Node(segs[i].1)
  {
    seq(|segs|, i requires 0 <= i < |segs| => Node(segs[i].1))
  }

  /** `dict_to_list`: the message list rebuilt from a dictionary. */
  function DictToList(d: Dict<string>): Result<seq<Tree>> {
    if d == [] then Ok([])
    else
      var b :- Feed(Start, d[..|d| - 1]);
      var b1 :- Step(b, d[|d| - 1].0, d[|d| - 1].1, true);
      Ok(Output(b1.segments))
  }

  /** `dict_to_list` once the run and its last step are known. */
  lemma Rebuilt(d: Dict<string>, b: Builder, b1: Builder)
    requires |d| >= 1 && Feed(Start, d[..|d| - 1]) == Ok(b)
    requires Step(b, d[|d| - 1].0, d[|d| - 1].1, true) == Ok(b1)
    ensures DictToList(d) == Ok(Output(b1.segments))
  {
  }

  // ---- segment bookkeeping ----

  /** Appending to a segment leaves the others as they are. */
  lemma AppendAt(segs: Dict<seq<Tree>>, id: string, items: seq<Tree>, rest: Dict<seq<Tree>>, x: Tree)
    requires id !in Keys(segs)
    ensures Append(segs + [(id, items)] + rest, id, x) == Ok(segs + [(id, items + [x])] + rest)
  {
    GetAt(segs, id, items, rest);
    PutAt(segs, id, items, rest, items + [x]);
  }

  lemma AppendLast(segs: Dict<seq<Tree>>, id: string, items: seq<Tree>, x: Tree)
    requires id !in Keys(segs)
    ensures id in Keys(segs + [(id, items)])
    ensures Append(segs + [(id, items)], id, x) == Ok(segs + [(id, items + [x])])
  {
    AppendAt(segs, id, items, [], x);
    assert segs + [(id, items)] + [] == segs + [(id, items)];
    assert segs + [(id, items + [x])] + [] == segs + [(id, items + [x])];
  }

  /** The segment being built is already registered. */
  lemma RegisterLast(segs: Dict<seq<Tree>>, id: string, items: seq<Tree>)
    requires id !in Keys(segs)
    ensures Register(segs + [(id, items)], id) == segs + [(id, items)]
  {
    AppendLast(segs, id, items, Leaf(""));
  }

  /** A new segment is registered last, with no items. */
  lemma RegisterNew(segs: Dict<seq<Tree>>, id: string)
    requires id !in Keys(segs)
    ensures Register(segs, id) == segs + [(id, [])]
  {
  }

  // ---- the loop ----

  lemma {:induction false} FeedConcat(b: Builder, x: Dict<string>, y: Dict<string>, b1: Builder)
    requires Feed(b, x) == Ok(b1)
    ensures Feed(b, x + y) == Feed(b1, y)
    decreases |x|
  {
    if x == [] {
      assert x + y == y;
    } else {
      var b0 := Step(b, x[0].0, x[0].1, false).value;
      assert (x + y)[0] == x[0];
      assert (x + y)[1..] == x[1..] + y;
      FeedConcat(b0, x[1..], y, b1);
    }
  }

  /** A run that succeeds succeeds on each prefix, and continues from
      there. */
  lemma {:induction false} FeedPrefix(b: Builder, x: Dict<string>, y: Dict<string>)
    requires Feed(b, x + y).Ok?
    ensures Feed(b, x).Ok? && Feed(b, x + y) == Feed(Feed(b, x).value, y)
    decreases |x|
  {
    if x == [] {
      assert x + y == y;
    } else {
      assert (x + y)[0] == x[0];
      assert (x + y)[1..] == x[1..] + y;
      var b0 := Step(b, x[0].0, x[0].1, false).value;
      FeedPrefix(b0, x[1..], y);
    }
  }

  lemma FeedOne(b: Builder, key: string, v: string)
    ensures Feed(b, [(key, v)]) == Step(b, key, v, false)
  {
    assert [(key, v)][1..] == [];
  }

  /** After a run of entries the loop remembers the last entry's segment. */
  lemma {:induction false} FeedPrev(b: Builder, x: Dict<string>)
    requires x != [] && Feed(b, x).Ok?
    ensures Feed(b, x).value.prevSegment == Split(x[|x| - 1].0, '.')[0]
    decreases |x|
  {
    var b0 := Step(b, x[0].0, x[0].1, false).value;
    if |x| > 1 {
      assert x[1..][|x| - 2] == x[|x| - 1];
      FeedPrev(b0, x[1..]);
    }
  }

  /** The last entry is an ordinary step followed by both flushes. */
  lemma StepLast(b: Builder, key: string, v: string)
    requires Step(b, key, v, false).Ok?
    ensures Step(b, key, v, true) ==
      Settle(Step(b, key, v, false).value, Split(key, '.')[0], b.prevSegment)
  {
    var parts := Split(key, '.');
    var id := parts[0];
    var b1 := Core(b.(segments := Register(b.segments, id)), parts, v).value;
    var d := |parts| - 1;
    assert Step(b, key, v, false) == Ok(b1.(prevSegment := id, prevDepth := d));
    SettleIgnoresPrev(b1, id, b.prevSegment, id, d);
  }

  /** The flushes do not look at the remembered segment and depth. */
  lemma SettleIgnoresPrev(b: Builder, id: string, prev: string, s: string, d: int)
    ensures Settle(b.(prevSegment := s, prevDepth := d), id, prev) ==
      (if Settle(b, id, prev).Ok? then Ok(Settle(b, id, prev).value.(prevSegment := s, prevDepth := d))
       else Settle(b, id, prev))
  {
  }

  /** One step on a reference is the loop body on its parts. */
  lemma StepKey(b: Builder, name: string, p: seq<nat>, v: string)
    requires '.' !in name
    ensures Step(b, name + Suffix(p), v, false) == StepParts(b, [name] + Numerals(p), v, false)
  {
    KeySplit(name, p);
  }

  /** The positions of a reference read back as numbers. */
  lemma Positions(name: string, p: seq<nat>)
    ensures forall k :: 1 <= k <= |p| ==> ParseInt(([name] + Numerals(p))[k]) == Ok(p[k - 1])
  {
    forall k | 1 <= k <= |p|
      ensures ParseInt(([name] + Numerals(p))[k]) == Ok(p[k - 1])
    {
      ParseNatToString(p[k - 1]);
    }
  }

  // ---- one entry at a time ----
  // `segs + [(name, items)]` is the dictionary of segments with the current
  // segment last; the pending lists say what is still to be attached.

  /** A plain field after a plain field, or at the start of a segment. */
  lemma StepLeafPlain(b: Builder, segs: Dict<seq<Tree>>, name: string, items: seq<Tree>, j: nat, v: string)
    requires '.' !in name && name !in Keys(segs)
    requires Register(b.segments, name) == segs + [(name, items)]
    requires b.prevDepth == 1
    ensures Step(b, name + Suffix([j]), v, false) ==
      Ok(b.(segments := segs + [(name, items + [Leaf(v)])], prevSegment := name, prevDepth := 1))
  {
    StepKey(b, name, [j], v);
    Positions(name, [j]);
    AppendLast(segs, name, items, Leaf(v));
  }

  /** A plain field closes the component list before it. */
  lemma StepLeafAfterComps(b: Builder, segs: Dict<seq<Tree>>, name: string, items: seq<Tree>, j: nat, v: string)
    requires '.' !in name && name !in Keys(segs)
    requires b.segments == segs + [(name, items)] && b.prevSegment == name
    requires b.prevDepth == 2 && b.subfields != [] && b.repeatsList == []
    ensures Step(b, name + Suffix([j]), v, false) ==
      Ok(b.(segments := segs + [(name, items + [Components(b.subfields), Leaf(v)])],
            subfields := [], prevSubfieldPos := 1, prevSegment := name, prevDepth := 1))
  {
    StepKey(b, name, [j], v);
    Positions(name, [j]);
    RegisterLast(segs, name, items);
    var c := Components(b.subfields);
    AppendLast(segs, name, items, c);
    AppendLast(segs, name, items + [c], Leaf(v));
    assert items + [c] + [Leaf(v)] == items + [c, Leaf(v)];
  }

  /** The first field of a segment closes the component list that ended
      the previous segment, and attaches it there. */
  lemma StepLeafAfterCompsNewSegment(b: Builder, segs: Dict<seq<Tree>>, prev: string, items: seq<Tree>,
                                     name: string, j: nat, v: string)
    requires '.' !in name && prev !in Keys(segs) && name !in Keys(segs + [(prev, items)])
    requires b.segments == segs + [(prev, items)] && b.prevSegment == prev
    requires b.prevDepth == 2 && b.subfields != [] && b.repeatsList == []
    ensures Step(b, name + Suffix([j]), v, false) ==
      Ok(b.(segments := segs + [(prev, items + [Components(b.subfields)]), (name, [Leaf(v)])],
            subfields := [], prevSubfieldPos := 1, prevSegment := name, prevDepth := 1))
  {
    StepKey(b, name, [j], v);
    assert Keys(segs + [(prev, items)])[|segs|] == prev;
    RegisterNew(segs + [(prev, items)], name);
    var b0 := b.(segments := segs + [(prev, items)] + [(name, [])]);
    var parts := [name] + Numerals([j]);
    assert |parts| - 1 == 1 && parts[0] == name;
    CoreLeafNewSegment(b0, segs, prev, items, name, parts, v);
  }

  /** At a segment change, the pending component list goes to the
      previous segment. */
  lemma SettleElsewhere(b: Builder, segs: Dict<seq<Tree>>, prev: string, items: seq<Tree>,
                        rest: Dict<seq<Tree>>, id: string)
    requires prev !in Keys(segs) && id != prev
    requires b.segments == segs + [(prev, items)] + rest
    requires b.subfields != [] && b.repeatsList == []
    ensures Settle(b, id, prev) ==
      Ok(b.(segments := segs + [(prev, items + [Components(b.subfields)])] + rest, subfields := [], prevSubfieldPos := 1))
  {
    AppendAt(segs, prev, items, rest, Components(b.subfields));
  }

  /** A plain field after a deeper key: both flushes, then the field. */
  lemma CoreLeafAfterDeeper(b: Builder, parts: seq<string>, v: string, b1: Builder, segs: Dict<seq<Tree>>)
    requires |parts| == 2 && b.prevDepth > 1
    requires Settle(b, parts[0], b.prevSegment) == Ok(b1)
    requires Append(b1.segments, parts[0], Leaf(v)) == Ok(segs)
    ensures Core(b, parts, v) == Ok(b1.(segments := segs))
  {
  }

  /** The settle step of a new segment's first field: the pending list
      goes to the previous segment, the new one stays empty. */
  lemma SettleNewSegment(b: Builder, segs: Dict<seq<Tree>>, prev: string, items: seq<Tree>, name: string)
    requires prev !in Keys(segs) && name != prev
    requires b.segments == segs + [(prev, items)] + [(name, [])] && b.prevSegment == prev
    requires b.subfields != [] && b.repeatsList == []
    ensures Settle(b, name, b.prevSegment) ==
      Ok(b.(segments := segs + [(prev, items + [Components(b.subfields)])] + [(name, [])],
            subfields := [], prevSubfieldPos := 1))
  {
    SettleElsewhere(b, segs, prev, items, [(name, [])], name);
  }

  /** The new segment's first field, appended once the pending list has
      gone to the previous segment. */
  lemma AppendNewSegment(segs: Dict<seq<Tree>>, prev: string, items: seq<Tree>, name: string, v: string)
    requires name !in Keys(segs + [(prev, items)])
    ensures Append(segs + [(prev, items)] + [(name, [])], name, Leaf(v)) ==
      Ok(segs + [(prev, items), (name, [Leaf(v)])])
  {
    var s0 := segs + [(prev, items)];
    AppendLast(s0, name, [], Leaf(v));
    assert [] + [Leaf(v)] == [Leaf(v)];
    assert s0 + [(name, [Leaf(v)])] == segs + [(prev, items), (name, [Leaf(v)])];
  }

  lemma CoreLeafNewSegment(b: Builder, segs: Dict<seq<Tree>>, prev: string, items: seq<Tree>,
                            name: string, parts: seq<string>, v: string)
    requires prev !in Keys(segs) && name !in Keys(segs + [(prev, items)])
    requires b.segments == segs + [(prev, items)] + [(name, [])] && b.prevSegment == prev
    requires b.prevDepth == 2 && b.subfields != [] && b.repeatsList == []
    requires |parts| == 2 && parts[0] == name
    ensures Core(b, parts, v) ==
      Ok(b.(segments := segs + [(prev, items + [Components(b.subfields)]), (name, [Leaf(v)])],
            subfields := [], prevSubfieldPos := 1))
  {
    var c := Components(b.subfields);
    var s0 := segs + [(prev, items)];
    var s1 := segs + [(prev, items + [c])];
    var target := segs + [(prev, items + [c]), (name, [Leaf(v)])];
    var b1 := b.(segments := s1 + [(name, [])], subfields := [], prevSubfieldPos := 1);
    assert Keys(s0)[|segs|] == prev;
    SettleNewSegment(b, segs, prev, items, name);
    assert name !in Keys(s1) by {
      forall k | 0 <= k < |s1|
        ensures Keys(s1)[k] != name
      {
        assert Keys(s1)[k] == Keys(s0)[k];
      }
    }
    AppendNewSegment(segs, prev, items + [c], name, v);
    CoreLeafAfterDeeper(b, parts, v, b1, target);
  }

  /** A plain field closes the repeated field before it. */
  lemma StepLeafAfterReps(b: Builder, segs: Dict<seq<Tree>>, name: string, items: seq<Tree>, j: nat, v: string)
    requires '.' !in name && name !in Keys(segs)
    requires b.segments == segs + [(name, items)]
    requires b.prevDepth == 3 && b.subfields == [] && b.repeatsList != [] && b.repeats != []
    ensures Step(b, name + Suffix([j]), v, false) ==
      Ok(b.(segments := segs + [(name, items + [Repetitions(b.repeatsList + [b.repeats]), Leaf(v)])],
            repeatsList := [], repeats := [], prevRepeatPos := 1, prevSegment := name, prevDepth := 1))
  {
    var c := Repetitions(b.repeatsList + [b.repeats]);
    assert items + [c] + [Leaf(v)] == items + [c, Leaf(v)];
    StepKey(b, name, [j], v);
    Positions(name, [j]);
    RegisterLast(segs, name, items);
    AppendLast(segs, name, items, c);
    AppendLast(segs, name, items + [c], Leaf(v));
  }

  /** The first component of a component list after a plain field. */
  lemma StepCompsPlain(b: Builder, segs: Dict<seq<Tree>>, name: string, items: seq<Tree>, j: nat, c: nat, v: string)
    requires '.' !in name
    requires Register(b.segments, name) == segs + [(name, items)]
    requires b.prevDepth == 1 && b.subfields == []
    ensures Step(b, name + Suffix([j, c]), v, false) ==
      Ok(b.(segments := segs + [(name, items)], subfields := [v], prevSubfieldPos := j,
            prevSegment := name, prevDepth := 2))
  {
    StepKey(b, name, [j, c], v);
    Positions(name, [j, c]);
    var parts := [name] + Numerals([j, c]);
    var b0 := b.(segments := segs + [(name, items)]);
    assert |parts| - 1 == 2 && parts[0] == name;
    assert ParseInt(parts[1]) == Ok(j);
    assert b0.prevDepth == 1;
    assert Core(b0, parts, v) == Ok(b0.(subfields := b0.subfields + [v], prevSubfieldPos := j));
    assert b0.subfields + [v] == [v];
  }

  /** The first component of a component list right after another one. */
  lemma StepCompsAfterComps(b: Builder, segs: Dict<seq<Tree>>, name: string, items: seq<Tree>, j: nat, c: nat, v: string)
    requires '.' !in name && name !in Keys(segs)
    requires b.segments == segs + [(name, items)]
    requires b.prevDepth == 2 && b.prevSubfieldPos < j
    ensures Step(b, name + Suffix([j, c]), v, false) ==
      Ok(b.(segments := segs + [(name, items + [Components(b.subfields)])], subfields := [v],
            prevSubfieldPos := j, prevSegment := name, prevDepth := 2))
  {
    StepKey(b, name, [j, c], v);
    Positions(name, [j, c]);
    RegisterLast(segs, name, items);
    AppendLast(segs, name, items, Components(b.subfields));
    var parts := [name] + Numerals([j, c]);
    assert |parts| - 1 == 2 && parts[0] == name;
    assert ParseInt(parts[1]) == Ok(j);
    var b1 := b.(segments := segs + [(name, items + [Components(b.subfields)])], subfields := [], prevSubfieldPos := j);
    assert Core(b, parts, v) == Ok(b1.(subfields := b1.subfields + [v]));
    assert b1.subfields + [v] == [v];
  }

  /** The first component of a component list closes the repeated field
      before it. */
  lemma StepCompsAfterReps(b: Builder, segs: Dict<seq<Tree>>, name: string, items: seq<Tree>, j: nat, c: nat, v: string)
    requires '.' !in name && name !in Keys(segs)
    requires b.segments == segs + [(name, items)]
    requires b.prevDepth == 3 && b.subfields == [] && b.repeats != []
    ensures Step(b, name + Suffix([j, c]), v, false) ==
      Ok(b.(segments := segs + [(name, items + [Repetitions(b.repeatsList + [b.repeats])])],
            subfields := [v], prevSubfieldPos := j, repeatsList := [], repeats := [], prevRepeatPos := 1,
            prevSegment := name, prevDepth := 2))
  {
    StepKey(b, name, [j, c], v);
    Positions(name, [j, c]);
    RegisterLast(segs, name, items);
    var rl := b.repeatsList + [b.repeats];
    AppendLast(segs, name, items, Repetitions(rl));
    var parts := [name] + Numerals([j, c]);
    assert |parts| - 1 == 2 && parts[0] == name;
    assert ParseInt(parts[1]) == Ok(j);
    assert Core(b, parts, v) == Ok(b.(segments := segs + [(name, items + [Repetitions(rl)])],
      subfields := b.subfields + [v], prevSubfieldPos := j, repeatsList := [], repeats := [], prevRepeatPos := 1));
    assert b.subfields + [v] == [v];
  }

  /** A further component of the same component list (or, as written, of
      a later field whose position is not greater). */
  lemma StepCompsExtend(b: Builder, segs: Dict<seq<Tree>>, name: string, items: seq<Tree>, j: nat, c: nat, v: string)
    requires '.' !in name && name !in Keys(segs)
    requires b.segments == segs + [(name, items)]
    requires b.prevDepth == 2 && b.prevSubfieldPos >= j
    ensures Step(b, name + Suffix([j, c]), v, false) ==
      Ok(b.(subfields := b.subfields + [v], prevSegment := name, prevDepth := 2))
  {
    StepKey(b, name, [j, c], v);
    Positions(name, [j, c]);
    RegisterLast(segs, name, items);
    var parts := [name] + Numerals([j, c]);
    assert |parts| - 1 == 2 && parts[0] == name;
    assert ParseInt(parts[1]) == Ok(j);
    assert Core(b, parts, v) == Ok(b.(subfields := b.subfields + [v]));
  }

  /** The first component of a repeated field after a plain field. */
  lemma StepRepsPlain(b: Builder, segs: Dict<seq<Tree>>, name: string, items: seq<Tree>, j: nat, r: nat, c: nat, v: string)
    requires '.' !in name
    requires Register(b.segments, name) == segs + [(name, items)]
    requires b.prevDepth == 1 && b.subfields == [] && b.repeats == []
    ensures Step(b, name + Suffix([j, r, c]), v, false) ==
      Ok(b.(segments := segs + [(name, items)], repeats := [v], prevRepeatPos := r,
            prevSegment := name, prevDepth := 3))
  {
    StepKey(b, name, [j, r, c], v);
    Positions(name, [j, r, c]);
    var b0 := b.(segments := segs + [(name, items)]);
    var parts := [name] + Numerals([j, r, c]);
    assert |parts| - 1 == 3 && parts[0] == name && b0.prevDepth == 1;
    assert ParseInt(parts[2]) == Ok(r);
    assert Core(b0, parts, v) == Ok(b0.(repeats := b0.repeats + [v], prevRepeatPos := r));
    assert b0.repeats + [v] == [v];
  }

  /** The first component of a repeated field closes the component list
      before it. */
  lemma StepRepsAfterComps(b: Builder, segs: Dict<seq<Tree>>, name: string, items: seq<Tree>, j: nat, r: nat, c: nat, v: string)
    requires '.' !in name && name !in Keys(segs)
    requires b.segments == segs + [(name, items)]
    requires b.prevDepth == 2 && b.subfields != [] && b.repeats == []
    ensures Step(b, name + Suffix([j, r, c]), v, false) ==
      Ok(b.(segments := segs + [(name, items + [Components(b.subfields)])], subfields := [],
            repeats := [v], prevRepeatPos := r, prevSegment := name, prevDepth := 3))
  {
    StepKey(b, name, [j, r, c], v);
    Positions(name, [j, r, c]);
    RegisterLast(segs, name, items);
    AppendLast(segs, name, items, Components(b.subfields));
    var parts := [name] + Numerals([j, r, c]);
    assert |parts| - 1 == 3 && parts[0] == name;
    assert ParseInt(parts[2]) == Ok(r);
    var b1 := b.(segments := segs + [(name, items + [Components(b.subfields)])], subfields := []);
    assert Core(b, parts, v) == Ok(b1.(repeats := b1.repeats + [v], prevRepeatPos := r));
    assert b1.repeats + [v] == [v];
  }

  /** A further component of the same repetition (or, as written, of a
      repetition whose position is not greater). */
  lemma StepRepsExtend(b: Builder, segs: Dict<seq<Tree>>, name: string, items: seq<Tree>, j: nat, r: nat, c: nat, v: string)
    requires '.' !in name && name !in Keys(segs)
    requires b.segments == segs + [(name, items)]
    requires b.prevDepth == 3 && b.prevRepeatPos >= r
    ensures Step(b, name + Suffix([j, r, c]), v, false) ==
      Ok(b.(repeats := b.repeats + [v], prevSegment := name, prevDepth := 3))
  {
    StepKey(b, name, [j, r, c], v);
    Positions(name, [j, r, c]);
    RegisterLast(segs, name, items);
    var parts := [name] + Numerals([j, r, c]);
    assert |parts| - 1 == 3 && parts[0] == name;
    assert ParseInt(parts[2]) == Ok(r);
    assert Core(b, parts, v) == Ok(b.(repeats := b.repeats + [v]));
  }

  /** The first component of the next repetition. */
  lemma StepRepsNext(b: Builder, segs: Dict<seq<Tree>>, name: string, items: seq<Tree>, j: nat, r: nat, c: nat, v: string)
    requires '.' !in name && name !in Keys(segs)
    requires b.segments == segs + [(name, items)]
    requires b.prevDepth == 3 && b.prevRepeatPos < r
    ensures Step(b, name + Suffix([j, r, c]), v, false) ==
      Ok(b.(repeatsList := b.repeatsList + [b.repeats], repeats := [v], prevRepeatPos := r,
            prevSegment := name, prevDepth := 3))
  {
    StepKey(b, name, [j, r, c], v);
    Positions(name, [j, r, c]);
    RegisterLast(segs, name, items);
    var parts := [name] + Numerals([j, r, c]);
    assert |parts| - 1 == 3 && parts[0] == name;
    assert ParseInt(parts[2]) == Ok(r);
    var b1 := b.(repeatsList := b.repeatsList + [b.repeats], repeats := [], prevRepeatPos := r);
    assert Core(b, parts, v) == Ok(b1.(repeats := b1.repeats + [v]));
    assert b1.repeats + [v] == [v];
  }

  // ---- the end of the dictionary ----

  lemma SettleComps(b: Builder, segs: Dict<seq<Tree>>, name: string, items: seq<Tree>)
    requires name !in Keys(segs)
    requires b.segments == segs + [(name, items)]
    requires b.subfields != [] && b.repeatsList == []
    ensures Settle(b, name, name) ==
      Ok(b.(segments := segs + [(name, items + [Components(b.subfields)])], subfields := [], prevSubfieldPos := 1))
  {
    AppendLast(segs, name, items, Components(b.subfields));
  }

  lemma SettleReps(b: Builder, segs: Dict<seq<Tree>>, name: string, items: seq<Tree>, prev: string)
    requires name !in Keys(segs)
    requires b.segments == segs + [(name, items)]
    requires b.subfields == [] && b.repeatsList != [] && b.repeats != []
    ensures Settle(b, name, prev) ==
      Ok(b.(segments := segs + [(name, items + [Repetitions(b.repeatsList + [b.repeats])])],
            repeatsList := [], repeats := [], prevRepeatPos := 1))
  {
    AppendLast(segs, name, items, Repetitions(b.repeatsList + [b.repeats]));
  }

  // ---- which segments come out ----

  /** The segment a key belongs to: everything before its first `.`. */
  function SegmentOf(key: string): string {
    Split(key, '.')[0]
  }

  /** `ids` with `id` added at the end unless it is already there. */
  function AddId(ids: seq<string>, id: string): (r: seq<string>)
    ensures id in r
  {
    if id in ids then ids else ids + [id]
  }

  /** `ids`, then the segments of the keys of `d` not seen yet, each once, in
      order of first appearance. */
  function IdsFrom(ids: seq<string>, d: Dict<string>): seq<string>
    decreases |d|
  {
    if d == [] then ids else IdsFrom(AddId(ids, SegmentOf(d[0].0)), d[1..])
  }

  /** The distinct segments of the keys of `d`, in order of first
      appearance. */
  function Ids(d: Dict<string>): seq<string> {
    IdsFrom([], d)
  }

  predicate Distinct(ids: seq<string>) {
    forall i, j :: 0 <= i < j < |ids| ==> ids[i] != ids[j]
  }

  /** Reading one more key adds its segment if it is new. */
  lemma {:induction false} IdsFromSnoc(ids: seq<string>, d: Dict<string>, key: string, v: string)
    ensures IdsFrom(ids, d + [(key, v)]) == AddId(IdsFrom(ids, d), SegmentOf(key))
    decreases |d|
  {
    if d == [] {
      assert [(key, v)][1..] == [];
    } else {
      assert (d + [(key, v)])[1..] == d[1..] + [(key, v)];
      IdsFromSnoc(AddId(ids, SegmentOf(d[0].0)), d[1..], key, v);
    }
  }

  /** `Ids(d)` lists each segment of a key of `d` exactly once, and
      nothing else. */
  lemma {:induction false} IdsFromExactly(ids: seq<string>, d: Dict<string>)
    requires Distinct(ids)
    ensures Distinct(IdsFrom(ids, d))
    ensures forall x :: x in IdsFrom(ids, d) <==> x in ids || exists k :: 0 <= k < |d| && SegmentOf(d[k].0) == x
    decreases |d|
  {
    if d != [] {
      var ids1 := AddId(ids, SegmentOf(d[0].0));
      assert Distinct(ids1);
      IdsFromExactly(ids1, d[1..]);
      forall x
        ensures x in IdsFrom(ids, d) <==> x in ids || exists k :: 0 <= k < |d| && SegmentOf(d[k].0) == x
      {
        if exists k :: 0 <= k < |d[1..]| && SegmentOf(d[1..][k].0) == x {
          var k :| 0 <= k < |d[1..]| && SegmentOf(d[1..][k].0) == x;
          assert SegmentOf(d[k + 1].0) == x;
        }
        if exists k :: 0 <= k < |d| && SegmentOf(d[k].0) == x {
          var k :| 0 <= k < |d| && SegmentOf(d[k].0) == x;
          if k > 0 {
            assert SegmentOf(d[1..][k - 1].0) == x;
          }
        }
      }
    }
  }

  lemma IdsExactly(d: Dict<string>)
    ensures Distinct(Ids(d))
    ensures forall x :: x in Ids(d) <==> exists k :: 0 <= k < |d| && SegmentOf(d[k].0) == x
  {
    IdsFromExactly([], d);
  }

  /** Registering a segment adds its id to the keys if it is new. */
  lemma RegisterKeys(segs: Dict<seq<Tree>>, id: string)
    ensures Keys(Register(segs, id)) == AddId(Keys(segs), id)
  {
    if id !in Keys(segs) {
      assert Keys(segs + [(id, [])]) == Keys(segs) + [id];
    }
  }

  /** Attaching items never adds or removes a segment. */
  lemma SettleKeys(b: Builder, id: string, prev: string)
    requires Settle(b, id, prev).Ok?
    ensures Keys(Settle(b, id, prev).value.segments) == Keys(b.segments)
  {
  }

  lemma CoreKeys(b: Builder, parts: seq<string>, v: string)
    requires |parts| >= 1 && Core(b, parts, v).Ok?
    ensures Keys(Core(b, parts, v).value.segments) == Keys(b.segments)
  {
    var depth := |parts| - 1;
    if depth < b.prevDepth && depth == 1 {
      SettleKeys(b, parts[0], b.prevSegment);
    }
  }

  /** One step keeps the segments in order of first appearance. */
  lemma StepKeys(b: Builder, key: string, v: string, last: bool)
    requires Step(b, key, v, last).Ok?
    ensures Keys(Step(b, key, v, last).value.segments) == AddId(Keys(b.segments), SegmentOf(key))
  {
    var parts := Split(key, '.');
    var id := parts[0];
    var b0 := b.(segments := Register(b.segments, id));
    RegisterKeys(b.segments, id);
    CoreKeys(b0, parts, v);
    if last {
      SettleKeys(Core(b0, parts, v).value, id, b.prevSegment);
    }
  }

  /** A run registers the segments of the keys it reads, each once, in order
      of first appearance. */
  lemma {:induction false} FeedKeys(b: Builder, d: Dict<string>)
    requires Feed(b, d).Ok?
    ensures Keys(Feed(b, d).value.segments) == IdsFrom(Keys(b.segments), d)
    decreases |d|
  {
    if d != [] {
      StepKeys(b, d[0].0, d[0].1, false);
      FeedKeys(Step(b, d[0].0, d[0].1, false).value, d[1..]);
    }
  }

  /** `dict_to_list` gives one list per distinct segment among the keys:
      the `i`-th list holds what was filed under the `i`-th segment to
      appear. */
  lemma DictToListIds(d: Dict<string>)
    requires DictToList(d).Ok?
    ensures |DictToList(d).value| == |Ids(d)|
    ensures exists segs :: Keys(segs) == Ids(d) && DictToList(d) == Ok(Output(segs))
  {
    if d == [] {
      var none: Dict<seq<Tree>> := [];
      assert Keys(none) == [];
    } else {
      var b := Feed(Start, d[..|d| - 1]).value;
      var b1 := Step(b, d[|d| - 1].0, d[|d| - 1].1, true).value;
      Rebuilt(d, b, b1);
      FinalKeys(d, b, b1);
    }
  }

  lemma FinalKeys(d: Dict<string>, b: Builder, b1: Builder)
    requires |d| >= 1 && Feed(Start, d[..|d| - 1]) == Ok(b)
    requires Step(b, d[|d| - 1].0, d[|d| - 1].1, true) == Ok(b1)
    ensures Keys(b1.segments) == Ids(d)
  {
    var n := |d| - 1;
    assert d[..n] + [(d[n].0, d[n].1)] == d;
    FeedKeys(Start, d[..n]);
    StepKeys(b, d[n].0, d[n].1, true);
    IdsFromSnoc([], d[..n], d[n].0, d[n].1);
  }
}
