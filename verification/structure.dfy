/** The structure listing (`_gen_structure` / `structure`): one text line
    per leaf, `reference: value`, with `*empty*` standing for an empty
    value and four spaces of indentation per level below the field. */
module Structure {
  import opened Results
  import opened Strings
  import opened Trees
  import opened Dicts
  import opened Mapping

  /** `' ' * indent`, or nothing for a negative indent. */
  function Pad(indent: int): (s: string)
    ensures |s| == (if indent >= 0 then indent else 0)
    ensures forall k :: 0 <= k < |s| ==> s[k] == ' '
  {
    if indent >= 0 then seq(indent, _ => ' ') else ""
  }

  /** The line written for one leaf. */
  function Line(path: string, v: string, indent: int): string {
    Pad(indent) + path + ": " + (if v != "" then v else "*empty*") + "\n"
  }

  /** `_gen_structure(data, path, indent)`: a string gives its line, a list
      the lines of its children, each one level deeper. */
  function GenStructure(t: Tree, path: string, indent: int, table: seq<string>): Result<string>
    decreases t, 1
  {
    match t
    case Leaf(v) => Ok(Line(path, v, indent))
    case Node(kids) => StructureKids(kids, |kids|, path, indent, table)
  }

  /** The loop of `_gen_structure` after its first `n` children. */
  function StructureKids(kids: seq<Tree>, n: nat, path: string, indent: int, table: seq<string>): Result<string>
    requires n <= |kids|
    decreases kids, n
  {
    if n == 0 then Ok("")
    else
      var acc :- StructureKids(kids, n - 1, path, indent, table);
      var p :- ChildPath(path, n - 1, table);
      var sub :- GenStructure(kids[n - 1], p, indent + 4, table);
      Ok(acc + sub)
  }

  /** `structure()`: the listing of a whole message, started eight columns
      to the left so that fields sit at the margin. */
  function Listing(elist: seq<Tree>, table: seq<string>): Result<string> {
    GenStructure(Node(elist), "", -8, table)
  }

  /** How deep a reference lies: the number of `.n` parts after its name. */
  function Depth(key: string): int {
    |Split(key, '.')| - 1
  }

  /** The line a dictionary entry would give, indented by its reference's
      depth: fields at the margin, components four columns in, repetition
      components eight. */
  function EntryLine(e: (string, string)): string {
    Line(e.0, e.1, 4 * Depth(e.0) - 4)
  }

  /** The lines of a dictionary's entries, in order, as one text. */
  function Render(d: Dict<string>): string {
    Concat(seq(|d|, i requires 0 <= i < |d| => EntryLine(d[i])))
  }

  /** The line of one leaf below `prefix`, at `indent` plus four per level
      of its path. */
  function SpotLine(prefix: string, s: Spot, indent: int): string {
    Line(prefix + Suffix(s.path), s.value, indent + 4 * |s.path|)
  }

  /** The lines of some leaves, in order, as one text. */
  function Lines(prefix: string, spots: seq<Spot>, indent: int): string {
    Concat(seq(|spots|, i requires 0 <= i < |spots| => SpotLine(prefix, spots[i], indent)))
  }

  lemma RenderConcat(a: Dict<string>, b: Dict<string>)
    ensures Render(a + b) == Render(a) + Render(b)
  {
    var la := seq(|a|, i requires 0 <= i < |a| => EntryLine(a[i]));
    var lb := seq(|b|, i requires 0 <= i < |b| => EntryLine(b[i]));
    assert seq(|a + b|, i requires 0 <= i < |a + b| => EntryLine((a + b)[i])) == la + lb;
    ConcatAppend(la, lb);
  }

  lemma LinesConcat(prefix: string, a: seq<Spot>, b: seq<Spot>, indent: int)
    ensures Lines(prefix, a + b, indent) == Lines(prefix, a, indent) + Lines(prefix, b, indent)
  {
    var la := seq(|a|, i requires 0 <= i < |a| => SpotLine(prefix, a[i], indent));
    var lb := seq(|b|, i requires 0 <= i < |b| => SpotLine(prefix, b[i], indent));
    assert seq(|a + b|, i requires 0 <= i < |a + b| => SpotLine(prefix, (a + b)[i], indent)) == la + lb;
    ConcatAppend(la, lb);
  }

  /** A leaf seen through child `n` has the child's reference as prefix and
      sits one level further in. */
  lemma SpotLineUnder(prefix: string, n: nat, s: Spot, indent: int)
    ensures SpotLine(prefix, Spot([n] + s.path, s.value), indent) == SpotLine(prefix + "." + NatToString(n), s, indent + 4)
  {
    var q := [n] + s.path;
    assert q[0] == n && q[1..] == s.path;
    assert Suffix(q) == "." + NatToString(n) + Suffix(s.path);
    assert prefix + Suffix(q) == prefix + "." + NatToString(n) + Suffix(s.path);
  }

  lemma LinesUnder(prefix: string, n: nat, ps: seq<Spot>, indent: int)
    ensures Lines(prefix, Under(n, ps), indent) == Lines(prefix + "." + NatToString(n), ps, indent + 4)
  {
    var us := Under(n, ps);
    forall i | 0 <= i < |ps|
      ensures SpotLine(prefix, us[i], indent) == SpotLine(prefix + "." + NatToString(n), ps[i], indent + 4)
    {
      SpotLineUnder(prefix, n, ps[i], indent);
    }
    assert seq(|us|, i requires 0 <= i < |us| => SpotLine(prefix, us[i], indent))
        == seq(|ps|, i requires 0 <= i < |ps| => SpotLine(prefix + "." + NatToString(n), ps[i], indent + 4));
  }

  /** Below a non-empty reference, the listing has one line per leaf, in
      the order of the dictionary's entries, indented by `4` per level. */
  lemma {:induction false} StructureBelow(t: Tree, path: string, indent: int, table: seq<string>)
    requires path != ""
    ensures GenStructure(t, path, indent, table) == Ok(Lines(path, Paths(t), indent))
    decreases t, 1
  {
    match t
    case Leaf(v) =>
      var spots := Paths(t);
      assert spots == [Spot([], v)];
      var ls := seq(|spots|, i requires 0 <= i < |spots| => SpotLine(path, spots[i], indent));
      assert SpotLine(path, spots[0], indent) == Line(path, v, indent) by {
        assert Suffix(spots[0].path) == "" && path + "" == path;
      }
      assert ls == [Line(path, v, indent)];
      assert ls[1..] == [];
      assert Concat(ls) == Line(path, v, indent) + "";
      assert Line(path, v, indent) + "" == Line(path, v, indent);
    case Node(kids) =>
      StructureKidsBelow(kids, |kids|, path, indent, table);
  }

  lemma {:induction false} StructureKidsBelow(kids: seq<Tree>, n: nat, path: string, indent: int, table: seq<string>)
    requires n <= |kids| && path != ""
    ensures StructureKids(kids, n, path, indent, table) == Ok(Lines(path, KidsPaths(kids, n), indent))
    decreases kids, n
  {
    if n == 0 {
      assert Lines(path, [], indent) == Concat([]);
    } else {
      var p := path + "." + NatToString(n);
      var acc := Lines(path, KidsPaths(kids, n - 1), indent);
      var sub := Lines(p, Paths(kids[n - 1]), indent + 4);
      assert StructureKids(kids, n - 1, path, indent, table) == Ok(acc) by {
        StructureKidsBelow(kids, n - 1, path, indent, table);
      }
      assert GenStructure(kids[n - 1], p, indent + 4, table) == Ok(sub) by {
        StructureBelow(kids[n - 1], p, indent + 4, table);
      }
      assert ChildPath(path, n - 1, table) == Ok(p);
      assert Lines(path, KidsPaths(kids, n), indent) == acc + sub by {
        LinesUnder(path, n, Paths(kids[n - 1]), indent);
        LinesConcat(path, KidsPaths(kids, n - 1), Under(n, Paths(kids[n - 1])), indent);
      }
    }
  }

  /** Under a `.`-free name, the lines of a segment's leaves are the
      rendering of its dictionary entries. */
  lemma LinesRender(name: string, spots: seq<Spot>)
    requires '.' !in name
    ensures Lines(name, spots, -4) == Render(Keyed(name, spots))
  {
    var d := Keyed(name, spots);
    forall i | 0 <= i < |spots|
      ensures SpotLine(name, spots[i], -4) == EntryLine(d[i])
    {
      KeySplit(name, spots[i].path);
      assert Depth(name + Suffix(spots[i].path)) == |spots[i].path|;
    }
    assert seq(|spots|, i requires 0 <= i < |spots| => SpotLine(name, spots[i], -4))
        == seq(|d|, i requires 0 <= i < |d| => EntryLine(d[i]));
  }

  lemma {:induction false} StructureMessage(elist: seq<Tree>, table: seq<string>, n: nat)
    requires n <= |elist| && n <= |table|
    requires forall i :: 0 <= i < n ==> table[i] != "" && '.' !in table[i]
    ensures StructureKids(elist, n, "", -8, table) == Ok(Render(Entries(elist, table, n)))
  {
    if n == 0 {
      assert Render([]) == Concat([]);
    } else {
      var name := table[n - 1];
      var ps := Paths(elist[n - 1]);
      var acc := Render(Entries(elist, table, n - 1));
      var sub := Render(Keyed(name, ps));
      assert StructureKids(elist, n - 1, "", -8, table) == Ok(acc) by {
        StructureMessage(elist, table, n - 1);
      }
      assert ChildPath("", n - 1, table) == Ok(name);
      assert GenStructure(elist[n - 1], name, -8 + 4, table) == Ok(sub) by {
        StructureBelow(elist[n - 1], name, -4, table);
        LinesRender(name, ps);
      }
      assert Render(Entries(elist, table, n)) == acc + sub by {
        RenderConcat(Entries(elist, table, n - 1), Keyed(name, ps));
      }
    }
  }

  /** The listing shows the dictionary view line by line: one line per
      entry, in the dictionary's order, `reference: value`, indented by the
      reference's depth. */
  lemma ListingShowsEntries(elist: seq<Tree>, table: seq<string>)
    requires |elist| <= |table|
    requires forall i :: 0 <= i < |elist| ==> table[i] != "" && '.' !in table[i]
    ensures Listing(elist, table) == Ok(Render(Entries(elist, table, |elist|)))
  {
    StructureMessage(elist, table, |elist|);
  }

  lemma {:induction false} StructureMessageDefined(elist: seq<Tree>, table: seq<string>, n: nat)
    requires n <= |elist|
    requires forall i :: 0 <= i < |table| ==> table[i] != ""
    ensures StructureKids(elist, n, "", -8, table).Ok? <==> n <= |table|
    ensures StructureKids(elist, n, "", -8, table).Err? ==>
      StructureKids(elist, n, "", -8, table).fault == IndexError
  {
    if n > 0 {
      StructureMessageDefined(elist, table, n - 1);
      if n - 1 < |table| {
        StructureBelow(elist[n - 1], table[n - 1], -4, table);
      }
    }
  }

  /** With non-empty names, the listing fails exactly when the message has
      more segments than the table has names. */
  lemma ListingDefined(elist: seq<Tree>, table: seq<string>)
    requires forall i :: 0 <= i < |table| ==> table[i] != ""
    ensures Listing(elist, table).Ok? <==> |elist| <= |table|
    ensures Listing(elist, table).Err? ==> Listing(elist, table).fault == IndexError
  {
    StructureMessageDefined(elist, table, |elist|);
  }
}
