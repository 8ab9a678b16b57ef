/** The round trip through the dictionary view: which lists `dict_to_list`
    rebuilds from their own `list_to_dict` entries, and why. */
module RowsBack {
  import opened Results
  import opened Strings
  import opened Trees
  import opened Dicts
  import opened Mapping
  import opened Rebuild

  // ---- the shapes that come back ----

  /** A segment of one or more well-shaped fields, no two repeated fields
      side by side. */
  predicate SegmentOk(s: Tree) {
    s.Node? && |s.kids| >= 1 &&
    (forall j :: 0 <= j < |s.kids| ==> IsField(s.kids[j])) &&
    (forall j :: 0 <= j < |s.kids| - 1 ==> !(IsRepetitions(s.kids[j]) && IsRepetitions(s.kids[j + 1])))
  }

  /** Where one segment meets the next: the first ends with a plain field,
      or with a component list followed by a plain field. */
  predicate Joins(s: Tree, t: Tree)
    requires SegmentOk(s) && SegmentOk(t)
  {
    var last := s.kids[|s.kids| - 1];
    last.Leaf? || (!IsRepetitions(last) && t.kids[0].Leaf?)
  }

  /** A segment whose only field is a one-component list. */
  predicate LoneComponent(s: Tree) {
    s.Node? && |s.kids| == 1 && IsComponents(s.kids[0]) && |s.kids[0].kids| == 1
  }

  /** The message lists `dict_to_list` rebuilds: well-shaped segments that
      join cleanly, the last of which is not a lone one-component list. */
  predicate Rebuildable(elist: seq<Tree>) {
    (forall i :: 0 <= i < |elist| ==> SegmentOk(elist[i])) &&
    (forall i :: 0 <= i < |elist| - 1 ==> Joins(elist[i], elist[i + 1])) &&
    (|elist| >= 1 ==> !LoneComponent(elist[|elist| - 1]))
  }

  /** The component strings of each repetition. */
  function RepTexts(reps: seq<Tree>): (rs: seq<seq<string>>)
    requires forall r :: 0 <= r < |reps| ==> IsComponents(reps[r])
    ensures |rs| == |reps|
    ensures forall r :: 0 <= r < |reps| ==> IsComponents(reps[r]) && rs[r] == Texts(reps[r].kids) && |rs[r]| >= 1
    ensures Repetitions(rs) == Node(reps)
  {
    var rs := seq(|reps|, r requires 0 <= r < |reps| && IsComponents(reps[r]) => Texts(reps[r].kids));
    assert forall r :: 0 <= r < |reps| ==> Components(rs[r]) == reps[r];
    assert Repetitions(rs).kids == reps;
    rs
  }

  // ---- the entries of one field ----

  /** Entries for the strings `vs` at positions `q.1`, `q.2`, ... */
  function Row(name: string, q: seq<nat>, vs: seq<string>): (d: Dict<string>)
    ensures |d| == |vs|
    ensures forall c :: 0 <= c < |vs| ==> d[c] == (name + Suffix(q + [c + 1]), vs[c])
  {
    seq(|vs|, c requires 0 <= c < |vs| => (name + Suffix(q + [c + 1]), vs[c]))
  }

  /** Entries for the first `n` repetitions of field `j`. */
  function RepRows(name: string, j: nat, rs: seq<seq<string>>, n: nat): (d: Dict<string>)
    requires n <= |rs|
    ensures n >= 1 && rs[0] != [] ==> |d| >= 1 && d[0] == (name + Suffix([j, 1, 1]), rs[0][0])
  {
    if n == 0 then []
    else
      assert [j, 1] + [0 + 1] == [j, 1, 1];
      RepRows(name, j, rs, n - 1) + Row(name, [j, n], rs[n - 1])
  }

  lemma {:induction false} LeafPaths(kids: seq<Tree>, m: nat)
    requires AllLeaves(kids) && m <= |kids|
    ensures KidsPaths(kids, m) == seq(m, c requires 0 <= c < m => Spot([c + 1], kids[c].text))
  {
    if m > 0 {
      LeafPaths(kids, m - 1);
      assert Paths(kids[m - 1]) == [Spot([], kids[m - 1].text)];
      assert [m] + [] == [m];
      assert Under(m, Paths(kids[m - 1])) == [Spot([m], kids[m - 1].text)];
    }
  }

  lemma UnderConcat(k: nat, a: seq<Spot>, b: seq<Spot>)
    ensures Under(k, a + b) == Under(k, a) + Under(k, b)
  {
  }

  /** A component list's entries. */
  lemma CompsKeys(name: string, j: nat, kids: seq<Tree>)
    requires AllLeaves(kids)
    ensures Keyed(name, Under(j, Paths(Node(kids)))) == Row(name, [j], Texts(kids))
  {
    LeafPaths(kids, |kids|);
    var a := Keyed(name, Under(j, Paths(Node(kids))));
    forall c | 0 <= c < |kids|
      ensures a[c] == Row(name, [j], Texts(kids))[c]
    {
      assert Under(j, Paths(Node(kids)))[c] == Spot([j] + [c + 1], kids[c].text);
    }
  }

  /** One repetition's entries. */
  lemma RepKeys(name: string, j: nat, r: nat, kids: seq<Tree>)
    requires AllLeaves(kids)
    ensures Keyed(name, Under(j, Under(r, Paths(Node(kids))))) == Row(name, [j, r], Texts(kids))
  {
    LeafPaths(kids, |kids|);
    var a := Keyed(name, Under(j, Under(r, Paths(Node(kids)))));
    forall c | 0 <= c < |kids|
      ensures a[c] == Row(name, [j, r], Texts(kids))[c]
    {
      assert Under(r, Paths(Node(kids)))[c] == Spot([r] + [c + 1], kids[c].text);
      assert [j] + ([r] + [c + 1]) == [j, r] + [c + 1];
    }
  }

  /** A repeated field's entries, repetition by repetition. */
  lemma {:induction false} RepsKeys(name: string, j: nat, reps: seq<Tree>, n: nat)
    requires forall r :: 0 <= r < |reps| ==> IsComponents(reps[r])
    requires n <= |reps|
    ensures Keyed(name, Under(j, KidsPaths(reps, n))) == RepRows(name, j, RepTexts(reps), n)
  {
    if n > 0 {
      RepsKeys(name, j, reps, n - 1);
      var a := KidsPaths(reps, n - 1);
      var b := Under(n, Paths(reps[n - 1]));
      UnderConcat(j, a, b);
      KeyedConcat(name, Under(j, a), Under(j, b));
      assert reps[n - 1] == Node(reps[n - 1].kids);
      RepKeys(name, j, n, reps[n - 1].kids);
    }
  }

  // ---- runs of entries within one field ----

  lemma Snoc<T>(xs: seq<T>, m: nat)
    requires 1 <= m <= |xs|
    ensures xs[..m - 1] + [xs[m - 1]] == xs[..m]
  {
  }

  /** The further components of a component list extend the pending list. */
  lemma {:induction false} CompsRun(b: Builder, segs: Dict<seq<Tree>>, name: string, items: seq<Tree>,
                                    j: nat, vs: seq<string>, m: nat)
    requires '.' !in name && name !in Keys(segs) && b.segments == segs + [(name, items)]
    requires b.prevDepth == 2 && b.prevSubfieldPos == j && b.prevSegment == name
    requires 1 <= m <= |vs| && b.subfields == [vs[0]]
    ensures Feed(b, Row(name, [j], vs)[1..m]) == Ok(b.(subfields := vs[..m]))
  {
    var row := Row(name, [j], vs);
    if m == 1 {
      assert row[1..1] == [];
      assert vs[..1] == [vs[0]];
    } else {
      assert [j] + [m - 1 + 1] == [j, m];
      assert row[1..m] == row[1..m - 1] + [row[m - 1]];
      Snoc(vs, m);
      var b1 := b.(subfields := vs[..m - 1]);
      assert Feed(b1, [row[m - 1]]) == Ok(b1.(subfields := vs[..m])) by {
        FeedOne(b1, row[m - 1].0, row[m - 1].1);
        StepCompsExtend(b1, segs, name, items, j, m, vs[m - 1]);
      }
      CompsRun(b, segs, name, items, j, vs, m - 1);
      FeedConcat(b, row[1..m - 1], [row[m - 1]], b1);
    }
  }

  /** The further components of a repetition extend the pending repetition. */
  lemma {:induction false} InnerRun(b: Builder, segs: Dict<seq<Tree>>, name: string, items: seq<Tree>,
                                    j: nat, r: nat, ws: seq<string>, m: nat)
    requires '.' !in name && name !in Keys(segs) && b.segments == segs + [(name, items)]
    requires b.prevDepth == 3 && b.prevRepeatPos == r && b.prevSegment == name
    requires 1 <= m <= |ws| && b.repeats == [ws[0]]
    ensures Feed(b, Row(name, [j, r], ws)[1..m]) == Ok(b.(repeats := ws[..m]))
  {
    var row := Row(name, [j, r], ws);
    if m == 1 {
      assert row[1..1] == [];
      assert ws[..1] == [ws[0]];
    } else {
      assert [j, r] + [m - 1 + 1] == [j, r, m];
      assert row[1..m] == row[1..m - 1] + [row[m - 1]];
      Snoc(ws, m);
      var b1 := b.(repeats := ws[..m - 1]);
      assert Feed(b1, [row[m - 1]]) == Ok(b1.(repeats := ws[..m])) by {
        FeedOne(b1, row[m - 1].0, row[m - 1].1);
        StepRepsExtend(b1, segs, name, items, j, r, m, ws[m - 1]);
      }
      InnerRun(b, segs, name, items, j, r, ws, m - 1);
      FeedConcat(b, row[1..m - 1], [row[m - 1]], b1);
    }
  }

  /** A repetition after the first: the previous one is finished, then
      this one is gathered. */
  lemma NextRepetition(b: Builder, segs: Dict<seq<Tree>>, name: string, items: seq<Tree>,
                       j: nat, n: nat, ws: seq<string>)
    requires '.' !in name && name !in Keys(segs) && b.segments == segs + [(name, items)]
    requires b.prevDepth == 3 && b.prevRepeatPos < n && b.prevSegment == name && ws != []
    ensures Feed(b, Row(name, [j, n], ws)) ==
      Ok(b.(repeatsList := b.repeatsList + [b.repeats], repeats := ws, prevRepeatPos := n))
  {
    var row := Row(name, [j, n], ws);
    assert [j, n] + [0 + 1] == [j, n, 1];
    StepRepsNext(b, segs, name, items, j, n, 1, ws[0]);
    var b1 := b.(repeatsList := b.repeatsList + [b.repeats], repeats := [ws[0]], prevRepeatPos := n);
    assert Feed(b, row) == Feed(b1, row[1..]);
    InnerRun(b1, segs, name, items, j, n, ws, |ws|);
    assert ws[..|ws|] == ws;
    assert row[1..|ws|] == row[1..];
  }

  /** The repetitions of a repeated field, each but the last moved to the
      finished list when the next one starts. */
  lemma {:induction false} RepsRun(b: Builder, segs: Dict<seq<Tree>>, name: string, items: seq<Tree>,
                                   j: nat, rs: seq<seq<string>>, n: nat)
    requires '.' !in name && name !in Keys(segs) && b.segments == segs + [(name, items)]
    requires b.prevDepth == 3 && b.prevRepeatPos == 1 && b.prevSegment == name
    requires 1 <= n <= |rs| && forall k :: 0 <= k < |rs| ==> rs[k] != []
    requires b.repeatsList == [] && b.repeats == [rs[0][0]]
    ensures Feed(b, RepRows(name, j, rs, n)[1..]) ==
      Ok(b.(repeatsList := rs[..n - 1], repeats := rs[n - 1], prevRepeatPos := n))
  {
    if n == 1 {
      assert rs[0][..|rs[0]|] == rs[0];
      assert RepRows(name, j, rs, 1)[1..] == Row(name, [j, 1], rs[0])[1..|rs[0]|];
      assert rs[..0] == [];
      InnerRun(b, segs, name, items, j, 1, rs[0], |rs[0]|);
    } else {
      var a := RepRows(name, j, rs, n - 1);
      var row := Row(name, [j, n], rs[n - 1]);
      var b1 := b.(repeatsList := rs[..n - 2], repeats := rs[n - 2], prevRepeatPos := n - 1);
      assert RepRows(name, j, rs, n)[1..] == a[1..] + row;
      Snoc(rs, n - 1);
      RepsRun(b, segs, name, items, j, rs, n - 1);
      FeedConcat(b, a[1..], row, b1);
      NextRepetition(b1, segs, name, items, j, n, rs[n - 1]);
    }
  }

  /** A component list, once its first component has been taken in. */
  lemma CompsFrom(b: Builder, b1: Builder, segs: Dict<seq<Tree>>, name: string, items: seq<Tree>,
                  j: nat, vs: seq<string>)
    requires '.' !in name && name !in Keys(segs) && |vs| >= 1
    requires Step(b, name + Suffix([j, 1]), vs[0], false) == Ok(b1)
    requires b1.segments == segs + [(name, items)] && b1.subfields == [vs[0]]
    requires b1.prevDepth == 2 && b1.prevSubfieldPos == j && b1.prevSegment == name
    ensures Feed(b, Row(name, [j], vs)) == Ok(b1.(subfields := vs))
  {
    var row := Row(name, [j], vs);
    assert [j] + [0 + 1] == [j, 1];
    assert Feed(b, row) == Feed(b1, row[1..]);
    CompsRun(b1, segs, name, items, j, vs, |vs|);
    assert row[1..|vs|] == row[1..];
    assert vs[..|vs|] == vs;
  }

  /** A repeated field, once its first component has been taken in. */
  lemma RepsFrom(b: Builder, b1: Builder, segs: Dict<seq<Tree>>, name: string, items: seq<Tree>,
                 j: nat, rs: seq<seq<string>>)
    requires '.' !in name && name !in Keys(segs)
    requires |rs| >= 1 && forall k :: 0 <= k < |rs| ==> rs[k] != []
    requires Step(b, name + Suffix([j, 1, 1]), rs[0][0], false) == Ok(b1)
    requires b1.segments == segs + [(name, items)] && b1.repeatsList == [] && b1.repeats == [rs[0][0]]
    requires b1.prevDepth == 3 && b1.prevRepeatPos == 1 && b1.prevSegment == name
    ensures Feed(b, RepRows(name, j, rs, |rs|)) ==
      Ok(b1.(repeatsList := rs[..|rs| - 1], repeats := rs[|rs| - 1], prevRepeatPos := |rs|))
  {
    var d := RepRows(name, j, rs, |rs|);
    assert Feed(b, d) == Feed(b1, d[1..]);
    RepsRun(b1, segs, name, items, j, rs, |rs|);
  }

  // ---- one field after another ----

  /** The loop's state once the entries of field `j`, `f`, have been read:
      the fields before it, `done`, are attached to the segment, and `f`
      is attached too when it is a plain field, or else pending. */
  predicate After(b: Builder, segs: Dict<seq<Tree>>, name: string, done: seq<Tree>, f: Tree, j: nat) {
    name !in Keys(segs) && b.prevSegment == name &&
    if f.Leaf? then
      b.segments == segs + [(name, done + [f])] && b.prevDepth == 1 &&
      b.subfields == [] && b.repeats == [] && b.repeatsList == []
    else if IsRepetitions(f) then
      b.segments == segs + [(name, done)] && b.prevDepth == 3 &&
      b.subfields == [] && b.repeatsList + [b.repeats] == RepTexts(f.kids)
    else
      IsComponents(f) && b.segments == segs + [(name, done)] && b.prevDepth == 2 &&
      b.subfields == Texts(f.kids) && b.prevSubfieldPos == j && b.repeats == [] && b.repeatsList == []
  }

  /** Nothing pending, and `name` is (or will be registered as) the last
      segment, holding `items`. */
  predicate Ready(b: Builder, segs: Dict<seq<Tree>>, name: string, items: seq<Tree>) {
    name !in Keys(segs) && Register(b.segments, name) == segs + [(name, items)] &&
    b.prevDepth == 1 && b.subfields == [] && b.repeats == [] && b.repeatsList == []
  }

  /** The entries of field `j` of segment `name`. */
  function FieldEntries(name: string, j: nat, f: Tree): Dict<string> {
    Keyed(name, Under(j, Paths(f)))
  }

  lemma FieldEntriesShape(name: string, j: nat, f: Tree)
    requires IsField(f)
    ensures f.Leaf? ==> FieldEntries(name, j, f) == [(name + Suffix([j]), f.text)]
    ensures IsComponents(f) ==> FieldEntries(name, j, f) == Row(name, [j], Texts(f.kids))
    ensures IsRepetitions(f) ==>
      FieldEntries(name, j, f) == RepRows(name, j, RepTexts(f.kids), |f.kids|)
  {
    if f.Leaf? {
      assert [j] + [] == [j];
      assert Under(j, Paths(f)) == [Spot([j], f.text)];
    } else if IsComponents(f) {
      CompsKeys(name, j, f.kids);
    } else {
      RepsKeys(name, j, f.kids, |f.kids|);
    }
  }

  /** The pending list, once attached, is the field it came from. */
  lemma PendingField(b: Builder, segs: Dict<seq<Tree>>, name: string, done: seq<Tree>, g: Tree, j0: nat)
    requires IsField(g) && After(b, segs, name, done, g, j0)
    ensures IsComponents(g) ==> b.subfields != [] && Components(b.subfields) == g
    ensures IsRepetitions(g) ==>
      b.repeatsList != [] && b.repeats != [] && Repetitions(b.repeatsList + [b.repeats]) == g
  {
    if IsRepetitions(g) {
      var rs := RepTexts(g.kids);
      assert b.repeats == rs[|rs| - 1];
    }
  }

  /** A component list just read leaves the state `After` describes. */
  lemma CompsLanded(b: Builder, segs: Dict<seq<Tree>>, name: string, items: seq<Tree>, j: nat, f: Tree)
    requires IsComponents(f) && name !in Keys(segs) && b.segments == segs + [(name, items)]
    requires b.prevSegment == name && b.prevDepth == 2 && b.prevSubfieldPos == j
    requires b.subfields == Texts(f.kids) && b.repeats == [] && b.repeatsList == []
    ensures After(b, segs, name, items, f, j)
  {
    assert f.kids[0].Leaf?;
  }

  /** A repeated field just read leaves the state `After` describes. */
  lemma RepsLanded(b: Builder, segs: Dict<seq<Tree>>, name: string, items: seq<Tree>, j: nat, f: Tree)
    requires IsRepetitions(f) && name !in Keys(segs) && b.segments == segs + [(name, items)]
    requires b.prevSegment == name && b.prevDepth == 3 && b.subfields == []
    requires b.repeatsList + [b.repeats] == RepTexts(f.kids)
    ensures After(b, segs, name, items, f, j)
  {
  }

  /** A field read with nothing pending. */
  lemma FieldFromReady(b: Builder, segs: Dict<seq<Tree>>, name: string, items: seq<Tree>, j: nat, f: Tree)
    requires '.' !in name && IsField(f) && Ready(b, segs, name, items)
    ensures Feed(b, FieldEntries(name, j, f)).Ok?
    ensures After(Feed(b, FieldEntries(name, j, f)).value, segs, name, items, f, j)
  {
    FieldEntriesShape(name, j, f);
    if f.Leaf? {
      FeedOne(b, name + Suffix([j]), f.text);
      StepLeafPlain(b, segs, name, items, j, f.text);
    } else if IsComponents(f) {
      CompsFromReady(b, segs, name, items, j, f);
    } else {
      RepsFromReady(b, segs, name, items, j, f);
    }
  }

  lemma CompsFromReady(b: Builder, segs: Dict<seq<Tree>>, name: string, items: seq<Tree>, j: nat, f: Tree)
    requires '.' !in name && IsComponents(f) && Ready(b, segs, name, items)
    ensures Feed(b, Row(name, [j], Texts(f.kids))).Ok?
    ensures After(Feed(b, Row(name, [j], Texts(f.kids))).value, segs, name, items, f, j)
  {
    var vs := Texts(f.kids);
    StepCompsPlain(b, segs, name, items, j, 1, vs[0]);
    var b1 := b.(segments := segs + [(name, items)], subfields := [vs[0]], prevSubfieldPos := j,
                 prevSegment := name, prevDepth := 2);
    CompsFrom(b, b1, segs, name, items, j, vs);
    CompsLanded(b1.(subfields := vs), segs, name, items, j, f);
  }

  lemma RepsFromReady(b: Builder, segs: Dict<seq<Tree>>, name: string, items: seq<Tree>, j: nat, f: Tree)
    requires '.' !in name && IsRepetitions(f) && Ready(b, segs, name, items)
    ensures Feed(b, RepRows(name, j, RepTexts(f.kids), |f.kids|)).Ok?
    ensures After(Feed(b, RepRows(name, j, RepTexts(f.kids), |f.kids|)).value, segs, name, items, f, j)
  {
    var rs := RepTexts(f.kids);
    StepRepsPlain(b, segs, name, items, j, 1, 1, rs[0][0]);
    var b1 := b.(segments := segs + [(name, items)], repeats := [rs[0][0]], prevRepeatPos := 1,
                 prevSegment := name, prevDepth := 3);
    RepsAfterStep(b, b1, segs, name, items, j, f);
  }

  /** A field read after a component list of the same segment. */
  lemma FieldAfterComps(b: Builder, segs: Dict<seq<Tree>>, name: string, done: seq<Tree>,
                        g: Tree, j0: nat, j: nat, f: Tree)
    requires '.' !in name && IsField(f) && IsField(g) && IsComponents(g) && j0 < j
    requires After(b, segs, name, done, g, j0)
    ensures Feed(b, FieldEntries(name, j, f)).Ok?
    ensures After(Feed(b, FieldEntries(name, j, f)).value, segs, name, done + [g], f, j)
  {
    FieldEntriesShape(name, j, f);
    PendingField(b, segs, name, done, g, j0);
    if f.Leaf? {
      FeedOne(b, name + Suffix([j]), f.text);
      StepLeafAfterComps(b, segs, name, done, j, f.text);
      assert done + [g, f] == done + [g] + [f];
    } else if IsComponents(f) {
      CompsAfterComps(b, segs, name, done, g, j, f);
    } else {
      RepsAfterComps(b, segs, name, done, g, j, f);
    }
  }

  lemma CompsAfterComps(b: Builder, segs: Dict<seq<Tree>>, name: string, done: seq<Tree>,
                        g: Tree, j: nat, f: Tree)
    requires '.' !in name && IsComponents(f)
    requires name !in Keys(segs) && b.segments == segs + [(name, done)] && b.prevSegment == name
    requires b.prevDepth == 2 && b.subfields != [] && Components(b.subfields) == g
    requires b.repeats == [] && b.repeatsList == []
    requires b.prevSubfieldPos < j
    ensures Feed(b, Row(name, [j], Texts(f.kids))).Ok?
    ensures After(Feed(b, Row(name, [j], Texts(f.kids))).value, segs, name, done + [g], f, j)
  {
    var vs := Texts(f.kids);
    StepCompsAfterComps(b, segs, name, done, j, 1, vs[0]);
    var b1 := b.(segments := segs + [(name, done + [g])], subfields := [vs[0]],
                 prevSubfieldPos := j, prevSegment := name, prevDepth := 2);
    CompsFrom(b, b1, segs, name, done + [g], j, vs);
    CompsLanded(b1.(subfields := vs), segs, name, done + [g], j, f);
  }

  lemma RepsAfterComps(b: Builder, segs: Dict<seq<Tree>>, name: string, done: seq<Tree>,
                       g: Tree, j: nat, f: Tree)
    requires '.' !in name && IsRepetitions(f)
    requires name !in Keys(segs) && b.segments == segs + [(name, done)] && b.prevSegment == name
    requires b.prevDepth == 2 && b.subfields != [] && Components(b.subfields) == g
    requires b.repeats == [] && b.repeatsList == []
    ensures Feed(b, RepRows(name, j, RepTexts(f.kids), |f.kids|)).Ok?
    ensures After(Feed(b, RepRows(name, j, RepTexts(f.kids), |f.kids|)).value, segs, name, done + [g], f, j)
  {
    var rs := RepTexts(f.kids);
    StepRepsAfterComps(b, segs, name, done, j, 1, 1, rs[0][0]);
    var b1 := b.(segments := segs + [(name, done + [g])], subfields := [],
                 repeats := [rs[0][0]], prevRepeatPos := 1, prevSegment := name, prevDepth := 3);
    RepsAfterStep(b, b1, segs, name, done + [g], j, f);
  }

  /** Once the first repetition's first component is read, the rest of the
      repeated field follows. */
  lemma RepsAfterStep(b: Builder, b1: Builder, segs: Dict<seq<Tree>>, name: string, items: seq<Tree>,
                      j: nat, f: Tree)
    requires '.' !in name && name !in Keys(segs) && IsRepetitions(f)
    requires Step(b, name + Suffix([j, 1, 1]), RepTexts(f.kids)[0][0], false) == Ok(b1)
    requires b1.segments == segs + [(name, items)] && b1.subfields == []
    requires b1.repeatsList == [] && b1.repeats == [RepTexts(f.kids)[0][0]]
    requires b1.prevDepth == 3 && b1.prevRepeatPos == 1 && b1.prevSegment == name
    ensures Feed(b, RepRows(name, j, RepTexts(f.kids), |f.kids|)).Ok?
    ensures After(Feed(b, RepRows(name, j, RepTexts(f.kids), |f.kids|)).value, segs, name, items, f, j)
  {
    var rs := RepTexts(f.kids);
    RepsFrom(b, b1, segs, name, items, j, rs);
    Snoc(rs, |rs|);
    RepsLanded(b1.(repeatsList := rs[..|rs| - 1], repeats := rs[|rs| - 1], prevRepeatPos := |rs|),
               segs, name, items, j, f);
  }

  /** A plain field or a component list read after a repeated field of the
      same segment. */
  lemma FieldAfterReps(b: Builder, segs: Dict<seq<Tree>>, name: string, done: seq<Tree>,
                       g: Tree, j0: nat, j: nat, f: Tree)
    requires '.' !in name && IsField(f) && !IsRepetitions(f) && IsRepetitions(g)
    requires After(b, segs, name, done, g, j0)
    ensures Feed(b, FieldEntries(name, j, f)).Ok?
    ensures After(Feed(b, FieldEntries(name, j, f)).value, segs, name, done + [g], f, j)
  {
    FieldEntriesShape(name, j, f);
    PendingField(b, segs, name, done, g, j0);
    if f.Leaf? {
      FeedOne(b, name + Suffix([j]), f.text);
      StepLeafAfterReps(b, segs, name, done, j, f.text);
      assert done + [g, f] == done + [g] + [f];
    } else {
      var vs := Texts(f.kids);
      StepCompsAfterReps(b, segs, name, done, j, 1, vs[0]);
      var b1 := b.(segments := segs + [(name, done + [g])], subfields := [vs[0]], prevSubfieldPos := j,
                   repeatsList := [], repeats := [], prevRepeatPos := 1, prevSegment := name, prevDepth := 2);
      CompsFrom(b, b1, segs, name, done + [g], j, vs);
      CompsLanded(b1.(subfields := vs), segs, name, done + [g], j, f);
    }
  }

  /** Any field after the previous one of the same segment. */
  lemma FieldNext(b: Builder, segs: Dict<seq<Tree>>, name: string, done: seq<Tree>,
                  g: Tree, j0: nat, j: nat, f: Tree)
    requires '.' !in name && IsField(f) && IsField(g) && j0 < j
    requires !(IsRepetitions(g) && IsRepetitions(f))
    requires After(b, segs, name, done, g, j0)
    ensures Feed(b, FieldEntries(name, j, f)).Ok?
    ensures After(Feed(b, FieldEntries(name, j, f)).value, segs, name, done + [g], f, j)
  {
    if g.Leaf? {
      RegisterLast(segs, name, done + [g]);
      FieldFromReady(b, segs, name, done + [g], j, f);
    } else if IsRepetitions(g) {
      FieldAfterReps(b, segs, name, done, g, j0, j, f);
    } else {
      FieldAfterComps(b, segs, name, done, g, j0, j, f);
    }
  }

  /** The fields of a segment, once its first field has been read. */
  lemma {:induction false} SegmentRun(b: Builder, segs: Dict<seq<Tree>>, name: string, fields: seq<Tree>, n: nat)
    requires '.' !in name && SegmentOk(Node(fields)) && 1 <= n <= |fields|
    requires Feed(b, FieldEntries(name, 1, fields[0])).Ok?
    requires After(Feed(b, FieldEntries(name, 1, fields[0])).value, segs, name, [], fields[0], 1)
    ensures Feed(b, Keyed(name, KidsPaths(fields, n))).Ok?
    ensures After(Feed(b, Keyed(name, KidsPaths(fields, n))).value, segs, name, fields[..n - 1], fields[n - 1], n)
  {
    if n == 1 {
      assert KidsPaths(fields, 1) == Under(1, Paths(fields[0]));
      assert fields[..0] == [];
    } else {
      SegmentRun(b, segs, name, fields, n - 1);
      var a := Keyed(name, KidsPaths(fields, n - 1));
      var b1 := Feed(b, a).value;
      KeyedConcat(name, KidsPaths(fields, n - 1), Under(n, Paths(fields[n - 1])));
      FeedConcat(b, a, FieldEntries(name, n, fields[n - 1]), b1);
      FieldNext(b1, segs, name, fields[..n - 2], fields[n - 2], n - 1, n, fields[n - 1]);
      Snoc(fields, n - 1);
    }
  }

  /** The first field of a segment, with nothing pending. */
  lemma OpenClean(b: Builder, segs: Dict<seq<Tree>>, name: string, f: Tree)
    requires '.' !in name && IsField(f) && name !in Keys(segs) && b.segments == segs
    requires b.prevDepth == 1 && b.subfields == [] && b.repeats == [] && b.repeatsList == []
    ensures Feed(b, FieldEntries(name, 1, f)).Ok?
    ensures After(Feed(b, FieldEntries(name, 1, f)).value, segs, name, [], f, 1)
  {
    RegisterNew(segs, name);
    FieldFromReady(b, segs, name, [], 1, f);
  }

  /** The plain first field of a segment whose predecessor ended with a
      component list: that list is attached to the predecessor. */
  lemma OpenAfterComps(b: Builder, segs: Dict<seq<Tree>>, prev: string, done: seq<Tree>,
                       g: Tree, j0: nat, name: string, f: Tree)
    requires '.' !in name && IsField(g) && IsComponents(g) && f.Leaf?
    requires After(b, segs, prev, done, g, j0)
    requires name !in Keys(segs) && name != prev
    ensures Feed(b, FieldEntries(name, 1, f)).Ok?
    ensures After(Feed(b, FieldEntries(name, 1, f)).value, segs + [(prev, done + [g])], name, [], f, 1)
  {
    FieldEntriesShape(name, 1, f);
    PendingField(b, segs, prev, done, g, j0);
    FreshAfterLast(segs, prev, done, name);
    FeedOne(b, name + Suffix([1]), f.text);
    StepLeafAfterCompsNewSegment(b, segs, prev, done, name, 1, f.text);
    NewSegmentShape(segs, prev, done + [g], name, f);
  }

  /** A name other than `prev` and absent from `segs` is absent once `prev`
      is filed after `segs`. */
  lemma FreshAfterLast(segs: Dict<seq<Tree>>, prev: string, done: seq<Tree>, name: string)
    requires name !in Keys(segs) && name != prev
    ensures name !in Keys(segs + [(prev, done)])
  {
    var s0 := segs + [(prev, done)];
    forall k | 0 <= k < |s0|
      ensures Keys(s0)[k] != name
    {
      if k < |segs| {
        assert Keys(s0)[k] == Keys(segs)[k];
      }
    }
  }

  lemma NewSegmentShape(segs: Dict<seq<Tree>>, prev: string, items: seq<Tree>, name: string, f: Tree)
    ensures segs + [(prev, items), (name, [f])] == (segs + [(prev, items)]) + [(name, [] + [f])]
  {
    assert [] + [f] == [f];
  }

  // ---- segment after segment ----

  /** Every item of the message is a list. */
  predicate Segments(elist: seq<Tree>) {
    forall i :: 0 <= i < |elist| ==> elist[i].Node?
  }

  /** Rebuildable messages are made of lists. */
  lemma RebuildableSegments(elist: seq<Tree>)
    requires Rebuildable(elist)
    ensures Segments(elist)
  {
    forall i | 0 <= i < |elist|
      ensures elist[i].Node?
    {
      assert SegmentOk(elist[i]);
    }
  }

  /** The first `n` segments as `dict_to_list` files them: each segment's
      fields under its table name. */
  function Built(elist: seq<Tree>, table: seq<string>, n: nat): (d: Dict<seq<Tree>>)
    requires n <= |elist| && n <= |table|
    requires forall i :: 0 <= i < n ==> elist[i].Node?
    ensures |d| == n
    ensures forall i :: 0 <= i < n ==> d[i] == (table[i], elist[i].kids)
  {
    seq(n, i requires 0 <= i < n => (table[i], elist[i].kids))
  }

  lemma BuiltFresh(elist: seq<Tree>, table: seq<string>, n: nat, m: nat)
    requires Segments(elist) && NamesFit(table, |elist|) && n <= m < |elist|
    ensures table[m] !in Keys(Built(elist, table, n))
  {
    var d := Built(elist, table, n);
    forall i | 0 <= i < n
      ensures Keys(d)[i] != table[m]
    {
      assert Keys(d)[i] == table[i];
    }
  }

  lemma BuiltSnoc(elist: seq<Tree>, table: seq<string>, n: nat)
    requires Segments(elist) && 1 <= n <= |elist| && n <= |table|
    ensures Built(elist, table, n) == Built(elist, table, n - 1) + [(table[n - 1], elist[n - 1].kids)]
  {
  }

  /** After the entries of the first `n` segments, the `n`-th segment's last
      field is read and everything before it is attached. */
  predicate ReadUpTo(b: Builder, elist: seq<Tree>, table: seq<string>, n: nat)
    requires Rebuildable(elist) && 1 <= n <= |elist| && n <= |table|
  {
    var fs := elist[n - 1].kids;
    After(b, Built(elist, table, n - 1), table[n - 1], fs[..|fs| - 1], fs[|fs| - 1], |fs|)
  }

  /** The entries of the `n`-th segment, read after those of the segment
      before it. */
  lemma SegmentAfter(elist: seq<Tree>, table: seq<string>, n: nat, b: Builder)
    requires Rebuildable(elist) && NamesFit(table, |elist|) && 2 <= n <= |elist|
    requires ReadUpTo(b, elist, table, n - 1)
    ensures Feed(b, Keyed(table[n - 1], Paths(elist[n - 1]))).Ok?
    ensures ReadUpTo(Feed(b, Keyed(table[n - 1], Paths(elist[n - 1]))).value, elist, table, n)
  {
    RebuildableSegments(elist);
    var name := table[n - 1];
    var fields := elist[n - 1].kids;
    var prev := table[n - 2];
    var pf := elist[n - 2].kids;
    var g := pf[|pf| - 1];
    var segs := Built(elist, table, n - 2);
    assert elist[n - 1] == Node(fields);
    BuiltSnoc(elist, table, n - 1);
    BuiltFresh(elist, table, n - 1, n - 1);
    assert pf[..|pf| - 1] + [g] == pf;
    assert Joins(elist[n - 2], elist[n - 1]);
    assert IsField(g);
    if g.Leaf? {
      OpenClean(b, Built(elist, table, n - 1), name, fields[0]);
    } else {
      BuiltFresh(elist, table, n - 2, n - 1);
      OpenAfterComps(b, segs, prev, pf[..|pf| - 1], g, |pf|, name, fields[0]);
    }
    SegmentRun(b, Built(elist, table, n - 1), name, fields, |fields|);
  }

  /** The entries of the first `n` segments leave the `n`-th segment's last
      field read, and everything before it attached. */
  lemma {:induction false} MessageRun(elist: seq<Tree>, table: seq<string>, n: nat)
    requires Rebuildable(elist) && NamesFit(table, |elist|) && 1 <= n <= |elist|
    ensures Feed(Start, Entries(elist, table, n)).Ok?
    ensures ReadUpTo(Feed(Start, Entries(elist, table, n)).value, elist, table, n)
  {
    RebuildableSegments(elist);
    var name := table[n - 1];
    var fields := elist[n - 1].kids;
    var rest := Keyed(name, KidsPaths(fields, |fields|));
    assert elist[n - 1] == Node(fields);
    assert Entries(elist, table, n) == Entries(elist, table, n - 1) + rest;
    if n == 1 {
      BuiltFresh(elist, table, 0, 0);
      assert Entries(elist, table, 0) == [] && Built(elist, table, 0) == [];
      assert Entries(elist, table, 1) == rest;
      OpenClean(Start, [], name, fields[0]);
      SegmentRun(Start, [], name, fields, |fields|);
    } else {
      MessageRun(elist, table, n - 1);
      var b := Feed(Start, Entries(elist, table, n - 1)).value;
      SegmentAfter(elist, table, n, b);
      FeedConcat(Start, Entries(elist, table, n - 1), rest, b);
    }
  }

  // ---- the last entry ----

  /** The `i`-th key from the end of `d` is read as a reference into
      segment `name`. */
  predicate FromEnd(d: Dict<string>, i: nat, name: string) {
    |d| >= i >= 1 && Split(d[|d| - i].0, '.')[0] == name
  }

  /** The last entries of the dictionary belong to the last segment: the
      last one always, the one before it too when the last field is a
      component list. */
  lemma LastEntries(elist: seq<Tree>, table: seq<string>)
    requires 1 <= |elist| <= |table| && NamesFit(table, |elist|)
    requires SegmentOk(elist[|elist| - 1]) && !LoneComponent(elist[|elist| - 1])
    ensures FromEnd(Entries(elist, table, |elist|), 1, table[|elist| - 1])
    ensures IsComponents(elist[|elist| - 1].kids[|elist[|elist| - 1].kids| - 1]) ==>
      FromEnd(Entries(elist, table, |elist|), 2, table[|elist| - 1])
  {
    var s := elist[|elist| - 1];
    SegmentSize(s);
    EntriesEnd(elist, table, 1);
    if IsComponents(s.kids[|s.kids| - 1]) {
      EntriesEnd(elist, table, 2);
    }
  }

  /** The `i`-th entry from the end is keyed under the last segment's name
      while the last segment has `i` leaves or more. */
  lemma EntriesEnd(elist: seq<Tree>, table: seq<string>, i: nat)
    requires 1 <= |elist| <= |table| && NamesFit(table, |elist|)
    requires 1 <= i <= |Paths(elist[|elist| - 1])|
    ensures FromEnd(Entries(elist, table, |elist|), i, table[|elist| - 1])
  {
    var n := |elist|;
    EntriesLast(elist, table, n);
    EndKey(Entries(elist, table, n - 1), table[n - 1], Paths(elist[n - 1]), i);
  }

  /** The entries of the first `n` segments extend those of the first
      `n - 1` by the keyed leaves of segment `n`. */
  lemma EntriesLast(elist: seq<Tree>, table: seq<string>, n: nat)
    requires 1 <= n <= |elist| && n <= |table|
    ensures Entries(elist, table, n) == Entries(elist, table, n - 1) + Keyed(table[n - 1], Paths(elist[n - 1]))
  {
  }

  /** The `i`-th entry from the end of keyed leaves carries the segment name. */
  lemma EndKey(a: Dict<string>, name: string, spots: seq<Spot>, i: nat)
    requires '.' !in name && 1 <= i <= |spots|
    ensures FromEnd(a + Keyed(name, spots), i, name)
  {
    var rest := Keyed(name, spots);
    TailOf(a, rest, i);
    assert rest[|rest| - i].0 == name + Suffix(spots[|spots| - i].path);
    KeyName(name, spots[|spots| - i].path);
  }

  /** Every field has a leaf; a component list one per component. */
  lemma FieldSize(f: Tree)
    requires IsField(f)
    ensures |Paths(f)| >= 1
    ensures IsComponents(f) ==> |Paths(f)| == |f.kids|
  {
    if f.Node? {
      if IsComponents(f) {
        LeafPaths(f.kids, |f.kids|);
      } else {
        assert KidsPaths(f.kids, 1) == Under(1, Paths(f.kids[0]));
        LeafPaths(f.kids[0].kids, |f.kids[0].kids|);
        KidsPathsGrow(f.kids, 1, |f.kids|);
      }
    }
  }

  /** A segment that is not a lone one-component list has two leaves or
      more whenever it ends with a component list. */
  lemma SegmentSize(s: Tree)
    requires SegmentOk(s) && !LoneComponent(s)
    ensures |Paths(s)| >= 1
    ensures IsComponents(s.kids[|s.kids| - 1]) ==> |Paths(s)| >= 2
  {
    var fields := s.kids;
    var k := |fields|;
    assert Paths(s) == KidsPaths(fields, k);
    FieldSize(fields[k - 1]);
    assert |KidsPaths(fields, k)| == |KidsPaths(fields, k - 1)| + |Paths(fields[k - 1])|;
    if k >= 2 {
      FieldSize(fields[0]);
      assert KidsPaths(fields, 1) == Under(1, Paths(fields[0]));
      KidsPathsGrow(fields, 1, k - 1);
    }
  }



  lemma {:induction false} KidsPathsGrow(kids: seq<Tree>, m: nat, n: nat)
    requires m <= n <= |kids|
    ensures |KidsPaths(kids, m)| <= |KidsPaths(kids, n)|
    decreases n
  {
    if m < n {
      KidsPathsGrow(kids, m, n - 1);
    }
  }

  lemma TailOf<T>(a: seq<T>, r: seq<T>, i: nat)
    requires 1 <= i <= |r|
    ensures |a + r| >= i && (a + r)[|a + r| - i] == r[|r| - i]
  {
  }

  /** The segments as rebuilt are the message list. */
  lemma OutputBuilt(elist: seq<Tree>, table: seq<string>)
    requires Segments(elist) && |elist| <= |table|
    ensures Output(Built(elist, table, |elist|)) == elist
  {
  }

  /** The closing flush attaches the last field, whatever it is. */
  lemma LastSettle(elist: seq<Tree>, table: seq<string>, b: Builder, prev: string)
    requires Rebuildable(elist) && NamesFit(table, |elist|) && |elist| >= 1
    requires ReadUpTo(b, elist, table, |elist|)
    requires IsComponents(elist[|elist| - 1].kids[|elist[|elist| - 1].kids| - 1]) ==> prev == table[|elist| - 1]
    ensures Settle(b, table[|elist| - 1], prev).Ok?
    ensures Settle(b, table[|elist| - 1], prev).value.segments == Built(elist, table, |elist|)
  {
    RebuildableSegments(elist);
    var n := |elist|;
    var name := table[n - 1];
    var fs := elist[n - 1].kids;
    var g := fs[|fs| - 1];
    var segs := Built(elist, table, n - 1);
    BuiltSnoc(elist, table, n);
    assert fs[..|fs| - 1] + [g] == fs;
    assert IsField(g);
    PendingField(b, segs, name, fs[..|fs| - 1], g, |fs|);
    if IsRepetitions(g) {
      SettleReps(b, segs, name, fs[..|fs| - 1], prev);
    } else if IsComponents(g) {
      SettleComps(b, segs, name, fs[..|fs| - 1]);
    }
  }

  /** The key just before the last one names the last segment when that
      segment ends with a component list. */
  lemma LastPrev(elist: seq<Tree>, table: seq<string>, x: Dict<string>)
    requires Rebuildable(elist) && NamesFit(table, |elist|) && |elist| >= 1
    requires |Entries(elist, table, |elist|)| >= 1
    requires x == Entries(elist, table, |elist|)[..|Entries(elist, table, |elist|)| - 1]
    requires Feed(Start, x).Ok?
    ensures
      var fs := elist[|elist| - 1].kids;
      IsComponents(fs[|fs| - 1]) ==> Feed(Start, x).value.prevSegment == table[|elist| - 1]
  {
    LastEntries(elist, table);
    var d := Entries(elist, table, |elist|);
    var fs := elist[|elist| - 1].kids;
    if IsComponents(fs[|fs| - 1]) {
      assert x[|x| - 1] == d[|d| - 2];
      FeedPrev(Start, x);
    }
  }

  /** The last entry, read with the closing flush, files every segment. */
  lemma {:induction false} EntriesRebuilt(elist: seq<Tree>, table: seq<string>)
    requires Rebuildable(elist) && NamesFit(table, |elist|) && |elist| >= 1
    ensures DictToList(Entries(elist, table, |elist|)) == Ok(Output(Built(elist, table, |elist|)))
  {
    var n := |elist|;
    var d := Entries(elist, table, n);
    LastEntries(elist, table);
    var x := d[..|d| - 1];
    var e := d[|d| - 1];
    assert d == x + [e];
    MessageRun(elist, table, n);
    var bN := Feed(Start, d).value;
    FeedPrefix(Start, x, [e]);
    var b1 := Feed(Start, x).value;
    FeedOne(b1, e.0, e.1);
    StepLast(b1, e.0, e.1);
    LastPrev(elist, table, x);
    LastSettle(elist, table, bN, b1.prevSegment);
    Rebuilt(d, b1, Settle(bN, table[n - 1], b1.prevSegment).value);
  }

  /** `dict_to_list(list_to_dict(elist)) == elist`, for every message list
      whose segments have distinct, non-empty, dot-free names and whose
      fields `dict_to_list` can tell apart (see `Rebuildable`). */
  lemma DictRoundTrip(elist: seq<Tree>, table: seq<string>)
    requires Rebuildable(elist) && NamesFit(table, |elist|)
    ensures ListToDict(elist, table).Ok?
    ensures DictToList(ListToDict(elist, table).value) == Ok(elist)
  {
    ListToDictEntries(elist, table);
    if |elist| == 0 {
      assert Entries(elist, table, 0) == [];
    } else {
      EntriesRebuilt(elist, table);
      RebuildableSegments(elist);
      OutputBuilt(elist, table);
    }
  }
}
