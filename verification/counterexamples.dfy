/** Messages that `dict_to_list`, as written, does not rebuild from their
    own dictionary view.

    Each case is a small message with symbolic segment names `x`, `y` and
    symbolic values: its dictionary (what `list_to_dict` gives), and the
    list `dict_to_list` builds from that dictionary, which differs from the
    message. `Repair` gives the corrected reading. */
module Counterexamples {
  import opened Results
  import opened Strings
  import opened Trees
  import opened Dicts
  import opened Mapping
  import opened Rebuild
  import opened RowsBack

  /** Two usable, distinct segment names. */
  predicate Names(x: string, y: string) {
    x != "" && y != "" && '.' !in x && '.' !in y && x != y
  }

  // ---- the dictionaries of small messages ----

  lemma OneField(name: string, f: Tree)
    ensures Keyed(name, Paths(Node([f]))) == FieldEntries(name, 1, f)
  {
    assert KidsPaths([f], 1) == [] + Under(1, Paths(f));
    assert [] + Under(1, Paths(f)) == Under(1, Paths(f));
  }

  lemma TwoFields(name: string, f: Tree, g: Tree)
    ensures Keyed(name, Paths(Node([f, g]))) == FieldEntries(name, 1, f) + FieldEntries(name, 2, g)
  {
    assert KidsPaths([f, g], 1) == [] + Under(1, Paths(f));
    assert [] + Under(1, Paths(f)) == Under(1, Paths(f));
    KeyedConcat(name, Under(1, Paths(f)), Under(2, Paths(g)));
  }

  lemma OneSegment(s: Tree, x: string)
    requires x != "" && '.' !in x
    ensures ListToDict([s], [x]) == Ok(Keyed(x, Paths(s)))
  {
    assert NamesFit([x], 1);
    ListToDictEntries([s], [x]);
    assert Entries([s], [x], 1) == [] + Keyed(x, Paths(s));
    assert [] + Keyed(x, Paths(s)) == Keyed(x, Paths(s));
  }

  lemma TwoSegments(s: Tree, t: Tree, x: string, y: string)
    requires Names(x, y)
    ensures ListToDict([s, t], [x, y]) == Ok(Keyed(x, Paths(s)) + Keyed(y, Paths(t)))
  {
    assert NamesFit([x, y], 2);
    ListToDictEntries([s, t], [x, y]);
    assert Entries([s, t], [x, y], 1) == [] + Keyed(x, Paths(s));
    assert [] + Keyed(x, Paths(s)) == Keyed(x, Paths(s));
  }

  /** The entries of a one-component list. */
  lemma OneComponent(name: string, j: nat, a: string)
    ensures FieldEntries(name, j, Node([Leaf(a)])) == [(name + Suffix([j, 1]), a)]
  {
    FieldEntriesShape(name, j, Node([Leaf(a)]));
    assert [j] + [0 + 1] == [j, 1];
    assert Texts([Leaf(a)]) == [a];
    var r := Row(name, [j], [a]);
    assert r[0] == (name + Suffix([j, 1]), a) && |r| == 1;
  }

  /** The entries of a field repeated twice, one component each. */
  lemma TwoRepetitions(name: string, j: nat, a: string, b: string)
    ensures FieldEntries(name, j, Node([Node([Leaf(a)]), Node([Leaf(b)])])) ==
      [(name + Suffix([j, 1, 1]), a), (name + Suffix([j, 2, 1]), b)]
  {
    var f := Node([Node([Leaf(a)]), Node([Leaf(b)])]);
    FieldEntriesShape(name, j, f);
    var rs := RepTexts(f.kids);
    assert rs == [[a], [b]] by {
      assert rs[0] == [a] && rs[1] == [b];
    }
    TwoRows(name, j, a, b);
  }

  /** The entries of two one-component repetitions. */
  lemma TwoRows(name: string, j: nat, a: string, b: string)
    ensures RepRows(name, j, [[a], [b]], 2) == [(name + Suffix([j, 1, 1]), a), (name + Suffix([j, 2, 1]), b)]
  {
    var rs := [[a], [b]];
    assert [j, 1] + [0 + 1] == [j, 1, 1] && [j, 2] + [0 + 1] == [j, 2, 1];
    var r1 := Row(name, [j, 1], rs[0]);
    var r2 := Row(name, [j, 2], rs[1]);
    assert r1 == [(name + Suffix([j, 1, 1]), a)];
    assert r2 == [(name + Suffix([j, 2, 1]), b)];
    assert RepRows(name, j, rs, 1) == [] + r1;
    assert RepRows(name, j, rs, 2) == RepRows(name, j, rs, 1) + r2;
  }


  // ---- reading dictionaries back ----

  /** A run whose every step is known. */
  lemma {:induction false} FeedSteps(bs: seq<Builder>, d: Dict<string>)
    requires |bs| == |d| + 1
    requires forall i :: 0 <= i < |d| ==> Step(bs[i], d[i].0, d[i].1, false) == Ok(bs[i + 1])
    ensures Feed(bs[0], d) == Ok(bs[|d|])
    decreases |d|
  {
    if d != [] {
      FeedSteps(bs[1..], d[1..]);
    }
  }

  /** As written, a component of a new segment's first field, after a
      component list, is added to that list: the key's field position is
      compared with the previous segment's. */
  lemma StepCompsStale(b: Builder, name: string, j: nat, c: nat, v: string)
    requires '.' !in name && name !in Keys(b.segments)
    requires b.prevDepth == 2 && b.prevSubfieldPos >= j
    ensures Step(b, name + Suffix([j, c]), v, false) ==
      Ok(b.(segments := b.segments + [(name, [])], subfields := b.subfields + [v], prevSegment := name))
  {
    StepKey(b, name, [j, c], v);
    Positions(name, [j, c]);
    RegisterNew(b.segments, name);
    var parts := [name] + Numerals([j, c]);
    assert |parts| - 1 == 2 && parts[0] == name;
    assert ParseInt(parts[1]) == Ok(j);
  }

  // ---- a component list ending a segment that the next one continues ----

  /** `x` ends with the list `[a]` and `y` starts with the list `[b]`: the
      two lists are read as one, `[a, b]`, and filed under `y`. */
  lemma ComponentsCarried(x: string, y: string, a: string, b: string, c: string)
    requires Names(x, y)
    ensures ListToDict([Node([Node([Leaf(a)])]), Node([Node([Leaf(b)]), Leaf(c)])], [x, y]) ==
      Ok([(x + Suffix([1, 1]), a), (y + Suffix([1, 1]), b), (y + Suffix([2]), c)])
    ensures DictToList([(x + Suffix([1, 1]), a), (y + Suffix([1, 1]), b), (y + Suffix([2]), c)]) ==
      Ok([Node([]), Node([Node([Leaf(a), Leaf(b)]), Leaf(c)])])
  {
    CarriedDict(x, y, a, b, c);
    CarriedRun(x, y, a, b, c);
  }

  lemma CarriedRun(x: string, y: string, a: string, b: string, c: string)
    requires Names(x, y)
    ensures DictToList([(x + Suffix([1, 1]), a), (y + Suffix([1, 1]), b), (y + Suffix([2]), c)]) ==
      Ok([Node([]), Node([Node([Leaf(a), Leaf(b)]), Leaf(c)])])
  {
    var d := [(x + Suffix([1, 1]), a), (y + Suffix([1, 1]), b), (y + Suffix([2]), c)];
    var b2 := Builder([(x, []), (y, [])], [a, b], [], [], y, 2, 1, 1);
    var b3 := Builder([(x, []), (y, [Components([a, b]), Leaf(c)])], [], [], [], y, 1, 1, 1);
    assert d[..2] == [d[0], d[1]];
    CarriedFeed(x, y, a, b);
    CarriedLast(x, y, a, b, c);
    Rebuilt(d, b2, b3);
    CarriedOutput(x, y, a, b, c);
  }

  lemma CarriedOutput(x: string, y: string, a: string, b: string, c: string)
    ensures Output([(x, []), (y, [Components([a, b]), Leaf(c)])]) ==
      [Node([]), Node([Node([Leaf(a), Leaf(b)]), Leaf(c)])]
  {
    assert LeafList([a, b]) == [Leaf(a), Leaf(b)];
  }

  lemma CarriedDict(x: string, y: string, a: string, b: string, c: string)
    requires Names(x, y)
    ensures ListToDict([Node([Node([Leaf(a)])]), Node([Node([Leaf(b)]), Leaf(c)])], [x, y]) ==
      Ok([(x + Suffix([1, 1]), a), (y + Suffix([1, 1]), b), (y + Suffix([2]), c)])
  {
    TwoSegments(Node([Node([Leaf(a)])]), Node([Node([Leaf(b)]), Leaf(c)]), x, y);
    OneField(x, Node([Leaf(a)]));
    OneComponent(x, 1, a);
    TwoFields(y, Node([Leaf(b)]), Leaf(c));
    OneComponent(y, 1, b);
    FieldEntriesShape(y, 2, Leaf(c));
    var ea := (x + Suffix([1, 1]), a);
    var eb := (y + Suffix([1, 1]), b);
    var ec := (y + Suffix([2]), c);
    assert [ea] + ([eb] + [ec]) == [ea, eb, ec];
  }

  lemma CarriedFeed(x: string, y: string, a: string, b: string)
    requires Names(x, y)
    ensures Feed(Start, [(x + Suffix([1, 1]), a), (y + Suffix([1, 1]), b)]) ==
      Ok(Builder([(x, []), (y, [])], [a, b], [], [], y, 2, 1, 1))
  {
    var none: Dict<seq<Tree>> := [];
    assert none + [(x, [])] == [(x, [])];
    StepCompsPlain(Start, none, x, [], 1, 1, a);
    var b1 := Start.(segments := [(x, [])], subfields := [a], prevSubfieldPos := 1, prevSegment := x, prevDepth := 2);
    assert Keys(b1.segments) == [x];
    StepCompsStale(b1, y, 1, 1, b);
    var b2 := b1.(segments := none + [(x, [])] + [(y, [])], subfields := [a] + [b], prevSegment := y);
    FeedSteps([Start, b1, b2], [(x + Suffix([1, 1]), a), (y + Suffix([1, 1]), b)]);
    assert none + [(x, [])] + [(y, [])] == [(x, []), (y, [])] && [a] + [b] == [a, b];
  }

  lemma CarriedLast(x: string, y: string, a: string, b: string, c: string)
    requires Names(x, y)
    ensures Step(Builder([(x, []), (y, [])], [a, b], [], [], y, 2, 1, 1), y + Suffix([2]), c, true) ==
      Ok(Builder([(x, []), (y, [Components([a, b]), Leaf(c)])], [], [], [], y, 1, 1, 1))
  {
    CarriedStep(x, y, a, b, c);
    StepLast(Builder([(x, []), (y, [])], [a, b], [], [], y, 2, 1, 1), y + Suffix([2]), c);
  }

  lemma CarriedStep(x: string, y: string, a: string, b: string, c: string)
    requires Names(x, y)
    ensures Step(Builder([(x, []), (y, [])], [a, b], [], [], y, 2, 1, 1), y + Suffix([2]), c, false) ==
      Ok(Builder([(x, []), (y, [Components([a, b]), Leaf(c)])], [], [], [], y, 1, 1, 1))
  {
    var segs: Dict<seq<Tree>> := [(x, [])];
    var b2 := Builder(segs + [(y, [])], [a, b], [], [], y, 2, 1, 1);
    assert Keys(segs) == [x];
    assert segs + [(y, [])] == [(x, []), (y, [])];
    assert [] + [Components([a, b]), Leaf(c)] == [Components([a, b]), Leaf(c)];
    assert b2.(segments := segs + [(y, [] + [Components(b2.subfields), Leaf(c)])],
               subfields := [], prevSubfieldPos := 1, prevSegment := y, prevDepth := 1) ==
      Builder([(x, []), (y, [Components([a, b]), Leaf(c)])], [], [], [], y, 1, 1, 1);
    StepLeafAfterComps(b2, segs, y, [], 2, c);
  }

  // ---- a repeated field ending a segment ----

  /** `x` ends with a repeated field: it is attached to `y`, the segment of
      the key that closes it. */
  lemma RepetitionsCarried(x: string, y: string, a: string, b: string, c: string)
    requires Names(x, y)
    ensures ListToDict([Node([Node([Node([Leaf(a)]), Node([Leaf(b)])])]), Node([Leaf(c)])], [x, y]) ==
      Ok([(x + Suffix([1, 1, 1]), a), (x + Suffix([1, 2, 1]), b), (y + Suffix([1]), c)])
    ensures DictToList([(x + Suffix([1, 1, 1]), a), (x + Suffix([1, 2, 1]), b), (y + Suffix([1]), c)]) ==
      Ok([Node([]), Node([Node([Node([Leaf(a)]), Node([Leaf(b)])]), Leaf(c)])])
  {
    CarriedRepsDict(x, y, a, b, c);
    CarriedRepsRun(x, y, a, b, c);
  }

  lemma CarriedRepsRun(x: string, y: string, a: string, b: string, c: string)
    requires Names(x, y)
    ensures DictToList([(x + Suffix([1, 1, 1]), a), (x + Suffix([1, 2, 1]), b), (y + Suffix([1]), c)]) ==
      Ok([Node([]), Node([Node([Node([Leaf(a)]), Node([Leaf(b)])]), Leaf(c)])])
  {
    var d := [(x + Suffix([1, 1, 1]), a), (x + Suffix([1, 2, 1]), b), (y + Suffix([1]), c)];
    var b2 := Builder([(x, [])], [], [b], [[a]], x, 3, 1, 2);
    var r := Repetitions([[a], [b]]);
    var b3 := Builder([(x, []), (y, [r, Leaf(c)])], [], [], [], y, 1, 1, 1);
    assert d[..2] == [d[0], d[1]];
    RepsFeed(x, a, b);
    CarriedRepsLast(x, y, a, b, c);
    Rebuilt(d, b2, b3);
    OutputTwo(x, [], y, [r, Leaf(c)]);
    TwoRepsTree(a, b);
  }

  lemma CarriedRepsDict(x: string, y: string, a: string, b: string, c: string)
    requires Names(x, y)
    ensures ListToDict([Node([Node([Node([Leaf(a)]), Node([Leaf(b)])])]), Node([Leaf(c)])], [x, y]) ==
      Ok([(x + Suffix([1, 1, 1]), a), (x + Suffix([1, 2, 1]), b), (y + Suffix([1]), c)])
  {
    var f := Node([Node([Leaf(a)]), Node([Leaf(b)])]);
    TwoSegments(Node([f]), Node([Leaf(c)]), x, y);
    OneField(x, f);
    TwoRepetitions(x, 1, a, b);
    OneField(y, Leaf(c));
    FieldEntriesShape(y, 1, Leaf(c));
    var ea := (x + Suffix([1, 1, 1]), a);
    var eb := (x + Suffix([1, 2, 1]), b);
    var ec := (y + Suffix([1]), c);
    assert [ea, eb] + [ec] == [ea, eb, ec];
  }

  /** The two repetitions `[a]` and `[b]` of a field 1 that starts a
      segment. */
  lemma RepsFeed(x: string, a: string, b: string)
    requires x != "" && '.' !in x
    ensures Feed(Start, [(x + Suffix([1, 1, 1]), a), (x + Suffix([1, 2, 1]), b)]) ==
      Ok(Builder([(x, [])], [], [b], [[a]], x, 3, 1, 2))
  {
    var none: Dict<seq<Tree>> := [];
    assert none + [(x, [])] == [(x, [])];
    StepRepsPlain(Start, none, x, [], 1, 1, 1, a);
    var b1 := Start.(segments := [(x, [])], repeats := [a], prevRepeatPos := 1, prevSegment := x, prevDepth := 3);
    StepRepsNext(b1, none, x, [], 1, 2, 1, b);
    var b2 := b1.(repeatsList := [] + [[a]], repeats := [b], prevRepeatPos := 2);
    FeedSteps([Start, b1, b2], [(x + Suffix([1, 1, 1]), a), (x + Suffix([1, 2, 1]), b)]);
    assert [] + [[a]] == [[a]];
  }

  lemma CarriedRepsLast(x: string, y: string, a: string, b: string, c: string)
    requires Names(x, y)
    ensures Step(Builder([(x, [])], [], [b], [[a]], x, 3, 1, 2), y + Suffix([1]), c, true) ==
      Ok(Builder([(x, []), (y, [Repetitions([[a], [b]]), Leaf(c)])], [], [], [], y, 1, 1, 1))
  {
    var segs: Dict<seq<Tree>> := [(x, [])];
    var b2 := Builder(segs, [], [b], [[a]], x, 3, 1, 2);
    var r := Repetitions([[a], [b]]);
    assert Keys(segs) == [x];
    assert [[a]] + [[b]] == [[a], [b]];
    assert [] + [r] + [Leaf(c)] == [r, Leaf(c)];
    assert segs + [(y, [r, Leaf(c)])] == [(x, []), (y, [r, Leaf(c)])];
    var parts := [y] + Numerals([1]);
    assert |parts| - 1 == 1 && parts[0] == y;
    StepKey(b2, y, [1], c);
    Positions(y, [1]);
    RegisterNew(segs, y);
    AppendLast(segs, y, [], r);
    AppendLast(segs, y, [] + [r], Leaf(c));
    var b3 := Builder(segs + [(y, [r, Leaf(c)])], [], [], [], x, 3, 1, 1);
    assert Core(b2.(segments := Register(segs, y)), parts, c) == Ok(b3);
    StepLast(b2, y + Suffix([1]), c);
  }

  lemma MergedTree(a: string, b: string, c: string, d: string)
    ensures Repetitions([[a], [b, c, d]]) == Node([Node([Leaf(a)]), Node([Leaf(b), Leaf(c), Leaf(d)])])
  {
    assert LeafList([a]) == [Leaf(a)] && LeafList([b, c, d]) == [Leaf(b), Leaf(c), Leaf(d)];
  }

  lemma OutputOne(x: string, items: seq<Tree>)
    ensures Output([(x, items)]) == [Node(items)]
  {
  }

  lemma OutputTwo(x: string, xs: seq<Tree>, y: string, ys: seq<Tree>)
    ensures Output([(x, xs), (y, ys)]) == [Node(xs), Node(ys)]
  {
  }

  lemma TwoRepsTree(a: string, b: string)
    ensures Repetitions([[a], [b]]) == Node([Node([Leaf(a)]), Node([Leaf(b)])])
  {
    assert LeafList([a]) == [Leaf(a)] && LeafList([b]) == [Leaf(b)];
  }

  // ---- two repeated fields side by side ----

  /** Field 1 repeated as `[a]`, `[b]` and field 2 as `[c]`, `[d]`: the
      second field's repetitions run on into the first field's last one,
      giving one field `[a]`, `[b, c, d]`. */
  lemma RepetitionsMerged(x: string, a: string, b: string, c: string, d: string)
    requires x != "" && '.' !in x
    ensures ListToDict([Node([Node([Node([Leaf(a)]), Node([Leaf(b)])]), Node([Node([Leaf(c)]), Node([Leaf(d)])])])], [x]) ==
      Ok([(x + Suffix([1, 1, 1]), a), (x + Suffix([1, 2, 1]), b), (x + Suffix([2, 1, 1]), c), (x + Suffix([2, 2, 1]), d)])
    ensures DictToList([(x + Suffix([1, 1, 1]), a), (x + Suffix([1, 2, 1]), b),
                        (x + Suffix([2, 1, 1]), c), (x + Suffix([2, 2, 1]), d)]) ==
      Ok([Node([Node([Node([Leaf(a)]), Node([Leaf(b), Leaf(c), Leaf(d)])])])])
  {
    MergedDict(x, a, b, c, d);
    MergedRun(x, a, b, c, d);
  }

  lemma MergedRun(x: string, a: string, b: string, c: string, d: string)
    requires x != "" && '.' !in x
    ensures DictToList([(x + Suffix([1, 1, 1]), a), (x + Suffix([1, 2, 1]), b),
                        (x + Suffix([2, 1, 1]), c), (x + Suffix([2, 2, 1]), d)]) ==
      Ok([Node([Node([Node([Leaf(a)]), Node([Leaf(b), Leaf(c), Leaf(d)])])])])
  {
    var e := [(x + Suffix([1, 1, 1]), a), (x + Suffix([1, 2, 1]), b),
              (x + Suffix([2, 1, 1]), c), (x + Suffix([2, 2, 1]), d)];
    var b3 := Builder([(x, [])], [], [b, c], [[a]], x, 3, 1, 2);
    var r := Repetitions([[a], [b, c, d]]);
    var b4 := Builder([(x, [r])], [], [], [], x, 3, 1, 1);
    MergedFeed(x, a, b, c);
    assert e[..3] == [e[0], e[1], e[2]];
    MergedLast(x, a, b, c, d);
    Rebuilt(e, b3, b4);
    OutputOne(x, [r]);
    MergedTree(a, b, c, d);
  }

  lemma MergedDict(x: string, a: string, b: string, c: string, d: string)
    requires x != "" && '.' !in x
    ensures ListToDict([Node([Node([Node([Leaf(a)]), Node([Leaf(b)])]), Node([Node([Leaf(c)]), Node([Leaf(d)])])])], [x]) ==
      Ok([(x + Suffix([1, 1, 1]), a), (x + Suffix([1, 2, 1]), b), (x + Suffix([2, 1, 1]), c), (x + Suffix([2, 2, 1]), d)])
  {
    var f := Node([Node([Leaf(a)]), Node([Leaf(b)])]);
    var g := Node([Node([Leaf(c)]), Node([Leaf(d)])]);
    OneSegment(Node([f, g]), x);
    TwoFields(x, f, g);
    TwoRepetitions(x, 1, a, b);
    TwoRepetitions(x, 2, c, d);
    var ea := (x + Suffix([1, 1, 1]), a);
    var eb := (x + Suffix([1, 2, 1]), b);
    var ec := (x + Suffix([2, 1, 1]), c);
    var ed := (x + Suffix([2, 2, 1]), d);
    assert [ea, eb] + [ec, ed] == [ea, eb, ec, ed];
  }

  lemma MergedFeed(x: string, a: string, b: string, c: string)
    requires x != "" && '.' !in x
    ensures Feed(Start, [(x + Suffix([1, 1, 1]), a), (x + Suffix([1, 2, 1]), b), (x + Suffix([2, 1, 1]), c)]) ==
      Ok(Builder([(x, [])], [], [b, c], [[a]], x, 3, 1, 2))
  {
    var e := [(x + Suffix([1, 1, 1]), a), (x + Suffix([1, 2, 1]), b)];
    var b2 := Builder([(x, [])], [], [b], [[a]], x, 3, 1, 2);
    RepsFeed(x, a, b);
    MergedStep(x, a, b, c);
    FeedOne(b2, x + Suffix([2, 1, 1]), c);
    FeedConcat(Start, e, [(x + Suffix([2, 1, 1]), c)], b2);
    assert e + [(x + Suffix([2, 1, 1]), c)] ==
      [(x + Suffix([1, 1, 1]), a), (x + Suffix([1, 2, 1]), b), (x + Suffix([2, 1, 1]), c)];
  }

  lemma MergedStep(x: string, a: string, b: string, c: string)
    requires x != "" && '.' !in x
    ensures Step(Builder([(x, [])], [], [b], [[a]], x, 3, 1, 2), x + Suffix([2, 1, 1]), c, false) ==
      Ok(Builder([(x, [])], [], [b, c], [[a]], x, 3, 1, 2))
  {
    var none: Dict<seq<Tree>> := [];
    var b2 := Builder([(x, [])], [], [b], [[a]], x, 3, 1, 2);
    assert none + [(x, [])] == [(x, [])];
    assert [b] + [c] == [b, c];
    assert b2.(repeats := b2.repeats + [c], prevSegment := x, prevDepth := 3) ==
      Builder([(x, [])], [], [b, c], [[a]], x, 3, 1, 2);
    StepRepsExtend(b2, none, x, [], 2, 1, 1, c);
  }

  lemma MergedLast(x: string, a: string, b: string, c: string, d: string)
    requires x != "" && '.' !in x
    ensures Step(Builder([(x, [])], [], [b, c], [[a]], x, 3, 1, 2), x + Suffix([2, 2, 1]), d, true) ==
      Ok(Builder([(x, [Repetitions([[a], [b, c, d]])])], [], [], [], x, 3, 1, 1))
  {
    var none: Dict<seq<Tree>> := [];
    var b3 := Builder(none + [(x, [])], [], [b, c], [[a]], x, 3, 1, 2);
    assert none + [(x, [])] == [(x, [])];
    var b4 := b3.(repeats := [b, c] + [d]);
    assert [b, c] + [d] == [b, c, d] && [[a]] + [[b, c, d]] == [[a], [b, c, d]];
    var r := Repetitions([[a], [b, c, d]]);
    assert [] + [r] == [r];
    assert none + [(x, [r])] == [(x, [r])];
    StepRepsExtend(b3, none, x, [], 2, 2, 1, d);
    StepLast(b3, x + Suffix([2, 2, 1]), d);
    KeySplit(x, [2, 2, 1]);
    SettleReps(b4, none, x, [], x);
  }

  // ---- a last segment holding one component ----

  /** A last segment whose only field is a one-component list loses it to
      the segment before. */
  lemma LoneComponentMisfiled(x: string, y: string, a: string, b: string)
    requires Names(x, y)
    ensures ListToDict([Node([Leaf(a)]), Node([Node([Leaf(b)])])], [x, y]) ==
      Ok([(x + Suffix([1]), a), (y + Suffix([1, 1]), b)])
    ensures DictToList([(x + Suffix([1]), a), (y + Suffix([1, 1]), b)]) ==
      Ok([Node([Leaf(a), Node([Leaf(b)])]), Node([])])
  {
    LoneDict(x, y, a, b);
    LoneRun(x, y, a, b);
  }

  lemma LoneRun(x: string, y: string, a: string, b: string)
    requires Names(x, y)
    ensures DictToList([(x + Suffix([1]), a), (y + Suffix([1, 1]), b)]) ==
      Ok([Node([Leaf(a), Node([Leaf(b)])]), Node([])])
  {
    var d := [(x + Suffix([1]), a), (y + Suffix([1, 1]), b)];
    var b1 := Start.(segments := [(x, [Leaf(a)])], prevSegment := x);
    var b3 := Builder([(x, [Leaf(a), Components([b])]), (y, [])], [], [], [], y, 2, 1, 1);
    assert d[..1] == [d[0]];
    assert Output(b3.segments) == [Node([Leaf(a), Node([Leaf(b)])]), Node([])] by {
      assert LeafList([b]) == [Leaf(b)];
    }
    LoneFirst(x, a);
    LoneLast(x, y, a, b);
    Rebuilt(d, b1, b3);
  }

  lemma LoneDict(x: string, y: string, a: string, b: string)
    requires Names(x, y)
    ensures ListToDict([Node([Leaf(a)]), Node([Node([Leaf(b)])])], [x, y]) ==
      Ok([(x + Suffix([1]), a), (y + Suffix([1, 1]), b)])
  {
    TwoSegments(Node([Leaf(a)]), Node([Node([Leaf(b)])]), x, y);
    OneField(x, Leaf(a));
    FieldEntriesShape(x, 1, Leaf(a));
    OneField(y, Node([Leaf(b)]));
    OneComponent(y, 1, b);
    var ea := (x + Suffix([1]), a);
    var eb := (y + Suffix([1, 1]), b);
    assert FieldEntries(x, 1, Leaf(a)) == [ea];
    assert [ea] + [eb] == [ea, eb];
  }

  lemma LoneFirst(x: string, a: string)
    requires x != "" && '.' !in x
    ensures Feed(Start, [(x + Suffix([1]), a)]) == Ok(Start.(segments := [(x, [Leaf(a)])], prevSegment := x))
  {
    var none: Dict<seq<Tree>> := [];
    assert none + [(x, [])] == [(x, [])] && none + [(x, [Leaf(a)])] == [(x, [Leaf(a)])];
    assert [] + [Leaf(a)] == [Leaf(a)];
    StepLeafPlain(Start, none, x, [], 1, a);
    FeedOne(Start, x + Suffix([1]), a);
  }

  lemma LoneLast(x: string, y: string, a: string, b: string)
    requires Names(x, y)
    ensures Step(Start.(segments := [(x, [Leaf(a)])], prevSegment := x), y + Suffix([1, 1]), b, true) ==
      Ok(Builder([(x, [Leaf(a), Components([b])]), (y, [])], [], [], [], y, 2, 1, 1))
  {
    var none: Dict<seq<Tree>> := [];
    var segs := [(x, [Leaf(a)])];
    var b1 := Start.(segments := segs, prevSegment := x);
    var c := Components([b]);
    assert none + [(x, [Leaf(a)])] + [(y, [])] == segs + [(y, [])];
    assert [Leaf(a)] + [c] == [Leaf(a), c];
    var p := (x, [Leaf(a), c]);
    var q: (string, seq<Tree>) := (y, []);
    assert none + [p] + [q] == [p, q];
    assert Keys(segs) == [x];
    RegisterNew(segs, y);
    StepCompsPlain(b1, segs, y, [], 1, 1, b);
    var b2 := b1.(segments := segs + [(y, [])], subfields := [b], prevSubfieldPos := 1, prevSegment := y, prevDepth := 2);
    StepLast(b1, y + Suffix([1, 1]), b);
    KeySplit(y, [1, 1]);
    AppendAt(none, x, [Leaf(a)], [(y, [])], c);
    assert Settle(b2, y, x) == Ok(Builder([p, q], [], [], [], y, 2, 1, 1));
  }
}
