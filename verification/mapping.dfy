/** The dictionary view (`_gen_dict` / `list_to_dict`): one entry per leaf
    of the message, keyed by its reference such as `PID.3.1.5`.

    A reference is the segment's table name followed by one `.n` per level,
    `n` the 1-based position at that level. Below the message list the path
    so far is extended with `.n`; at the message list itself, and wherever
    the path so far is the empty string, the name comes from the segment
    table instead, indexed by position. */
module Mapping {
  import opened Results
  import opened Strings
  import opened Trees
  import opened Dicts

  // ---- references ----

  /** The `.n` parts a path adds to a reference. */
  function Suffix(p: seq<nat>): string {
    if p == [] then "" else "." + NatToString(p[0]) + Suffix(p[1..])
  }

  /** The numerals of a path's positions. */
  function Numerals(p: seq<nat>): (ns: seq<string>)
    ensures |ns| == |p|
    ensures forall k :: 0 <= k < |p| ==> ns[k] == NatToString(p[k])
  {
    seq(|p|, k requires 0 <= k < |p| => NatToString(p[k]))
  }

  /** Leaves with their paths written below the reference `prefix`. */
  function Keyed(prefix: string, spots: seq<Spot>): (d: Dict<string>)
    ensures |d| == |spots|
    ensures forall k :: 0 <= k < |spots| ==>
      d[k] == (prefix + Suffix(spots[k].path), spots[k].value)
  {
    seq(|spots|, k requires 0 <= k < |spots| => (prefix + Suffix(spots[k].path), spots[k].value))
  }

  /** A reference is its prefix and its numerals joined with `.`. */
  lemma {:induction false} SuffixJoin(name: string, p: seq<nat>)
    ensures name + Suffix(p) == Join([name] + Numerals(p), '.')
    decreases |p|
  {
    if p != [] {
      SuffixJoin(NatToString(p[0]), p[1..]);
      assert Numerals(p) == [NatToString(p[0])] + Numerals(p[1..]);
      assert ([name] + Numerals(p))[1..] == [NatToString(p[0])] + Numerals(p[1..]);
    } else {
      assert [name] + Numerals(p) == [name];
    }
  }

  /** Splitting a reference on `.` gives the name back and one numeral per
      level, provided the name holds no `.`. */
  lemma KeySplit(name: string, p: seq<nat>)
    requires '.' !in name
    ensures Split(name + Suffix(p), '.') == [name] + Numerals(p)
  {
    SuffixJoin(name, p);
    var parts := [name] + Numerals(p);
    forall k | 0 <= k < |parts|
      ensures '.' !in parts[k]
    {
      if k > 0 {
        NumeralHasNoSeparator(p[k - 1], '.');
      }
    }
    SplitJoin(parts, '.');
  }

  lemma NumeralsInjective(p: seq<nat>, q: seq<nat>)
    requires Numerals(p) == Numerals(q)
    ensures p == q
  {
    forall k | 0 <= k < |p|
      ensures p[k] == q[k]
    {
      NatToStringInjective(p[k], q[k]);
    }
  }

  /** Under one prefix, different paths give different references. */
  lemma SuffixInjective(prefix: string, p: seq<nat>, q: seq<nat>)
    requires prefix + Suffix(p) == prefix + Suffix(q)
    ensures p == q
  {
    assert (prefix + Suffix(p))[|prefix|..] == Suffix(p);
    assert (prefix + Suffix(q))[|prefix|..] == Suffix(q);
    KeySplit("", p);
    KeySplit("", q);
    assert "" + Suffix(p) == Suffix(p);
    assert "" + Suffix(q) == Suffix(q);
    assert Numerals(p) == ([""] + Numerals(p))[1..];
    assert Numerals(q) == ([""] + Numerals(q))[1..];
    NumeralsInjective(p, q);
  }

  /** A reference names its segment: the name is what precedes the first
      `.`, so references under different `.`-free names differ. */
  lemma KeyName(name: string, p: seq<nat>)
    requires '.' !in name
    ensures Split(name + Suffix(p), '.')[0] == name
  {
    KeySplit(name, p);
  }

  lemma KeyedDistinct(prefix: string, spots: seq<Spot>)
    requires DistinctPaths(spots)
    ensures DistinctKeys(Keyed(prefix, spots))
  {
    var d := Keyed(prefix, spots);
    forall i, j | 0 <= i < j < |d|
      ensures d[i].0 != d[j].0
    {
      if d[i].0 == d[j].0 {
        SuffixInjective(prefix, spots[i].path, spots[j].path);
      }
    }
  }

  lemma KeyedConcat(prefix: string, a: seq<Spot>, b: seq<Spot>)
    ensures Keyed(prefix, a + b) == Keyed(prefix, a) + Keyed(prefix, b)
  {
  }

  /** Leaves seen through child `n` are keyed below the child's reference. */
  lemma KeyedUnder(prefix: string, n: nat, ps: seq<Spot>)
    ensures Keyed(prefix, Under(n, ps)) == Keyed(prefix + "." + NatToString(n), ps)
  {
    var a := Keyed(prefix, Under(n, ps));
    var b := Keyed(prefix + "." + NatToString(n), ps);
    forall k | 0 <= k < |ps|
      ensures a[k] == b[k]
    {
      var q := [n] + ps[k].path;
      assert Under(n, ps)[k] == Spot(q, ps[k].value);
      assert q[0] == n && q[1..] == ps[k].path;
      assert Suffix(q) == "." + NatToString(n) + Suffix(ps[k].path);
      assert prefix + Suffix(q) == prefix + "." + NatToString(n) + Suffix(ps[k].path);
    }
  }

  // ---- _gen_dict ----

  /** The reference of child `i` (0-based) of a list reached by `path`. */
  function ChildPath(path: string, i: nat, table: seq<string>): Result<string> {
    if path != "" then Ok(path + "." + NatToString(i + 1))
    else if i < |table| then Ok(table[i])
    else Err(IndexError)
  }

  /** `_gen_dict(data, path)`: a string becomes `{path: data}`; a list merges
      its children's dictionaries in order. */
  function GenDict(t: Tree, path: string, table: seq<string>): Result<Dict<string>>
    decreases t, 1
  {
    match t
    case Leaf(v) => Ok([(path, v)])
    case Node(kids) => GenDictKids(kids, |kids|, path, table)
  }

  /** The loop of `_gen_dict` after its first `n` children. */
  function GenDictKids(kids: seq<Tree>, n: nat, path: string, table: seq<string>): Result<Dict<string>>
    requires n <= |kids|
    decreases kids, n
  {
    if n == 0 then Ok([])
    else
      var acc :- GenDictKids(kids, n - 1, path, table);
      var p :- ChildPath(path, n - 1, table);
      var sub :- GenDict(kids[n - 1], p, table);
      Ok(PutAll(acc, sub))
  }

  /** `list_to_dict`: the dictionary of a whole message. */
  function ListToDict(elist: seq<Tree>, table: seq<string>): Result<Dict<string>> {
    GenDict(Node(elist), "", table)
  }

  /** Below a non-empty reference every leaf gets its own entry, keyed by
      the reference extended with the leaf's path, depth first. */
  lemma {:induction false} GenDictBelow(t: Tree, path: string, table: seq<string>)
    requires path != ""
    ensures GenDict(t, path, table) == Ok(Keyed(path, Paths(t)))
    decreases t, 1
  {
    match t
    case Leaf(v) =>
      assert Paths(t) == [Spot([], v)];
      assert Suffix([]) == "" && path + "" == path;
      assert Keyed(path, Paths(t))[0] == (path, v);
      assert Keyed(path, Paths(t)) == [(path, v)];
    case Node(kids) =>
      GenDictKidsBelow(kids, |kids|, path, table);
  }

  lemma {:induction false} GenDictKidsBelow(kids: seq<Tree>, n: nat, path: string, table: seq<string>)
    requires n <= |kids| && path != ""
    ensures GenDictKids(kids, n, path, table) == Ok(Keyed(path, KidsPaths(kids, n)))
    decreases kids, n
  {
    if n > 0 {
      var p := path + "." + NatToString(n);
      var acc := Keyed(path, KidsPaths(kids, n - 1));
      var sub := Keyed(p, Paths(kids[n - 1]));
      assert GenDictKids(kids, n - 1, path, table) == Ok(acc) by {
        GenDictKidsBelow(kids, n - 1, path, table);
      }
      assert GenDict(kids[n - 1], p, table) == Ok(sub) by {
        GenDictBelow(kids[n - 1], p, table);
      }
      assert ChildPath(path, n - 1, table) == Ok(p);
      assert Keyed(path, KidsPaths(kids, n)) == acc + sub by {
        KeyedUnder(path, n, Paths(kids[n - 1]));
        KeyedConcat(path, KidsPaths(kids, n - 1), Under(n, Paths(kids[n - 1])));
      }
      assert PutAll(acc, sub) == acc + sub by {
        KidsPathsDistinct(kids, n);
        KeyedDistinct(path, KidsPaths(kids, n));
        PutAllFresh(acc, sub);
      }
    }
  }

  // ---- the message level ----

  /** The segment names the dictionary keys are built from: one per
      segment, non-empty, without `.` and pairwise distinct. */
  predicate NamesFit(table: seq<string>, count: nat) {
    count <= |table| &&
    (forall i :: 0 <= i < count ==> table[i] != "" && '.' !in table[i]) &&
    (forall i, j :: 0 <= i < j < count ==> table[i] != table[j])
  }

  /** Every leaf of the first `n` segments keyed by the segment's name and
      the leaf's path: the message's dictionary. */
  function Entries(elist: seq<Tree>, table: seq<string>, n: nat): Dict<string>
    requires n <= |elist| && n <= |table|
  {
    if n == 0 then []
    else Entries(elist, table, n - 1) + Keyed(table[n - 1], Paths(elist[n - 1]))
  }

  /** Every key of the first `n` segments starts with one of their names. */
  lemma {:induction false} EntriesNames(elist: seq<Tree>, table: seq<string>, n: nat)
    requires n <= |elist| && NamesFit(table, n)
    ensures forall x :: 0 <= x < |Entries(elist, table, n)| ==>
      Split(Entries(elist, table, n)[x].0, '.')[0] in table[..n]
  {
    if n > 0 {
      assert NamesFit(table, n - 1);
      EntriesNames(elist, table, n - 1);
      var a := Entries(elist, table, n - 1);
      var name := table[n - 1];
      var ps := Paths(elist[n - 1]);
      var b := Keyed(name, ps);
      var d := a + b;
      forall x | 0 <= x < |d|
        ensures Split(d[x].0, '.')[0] in table[..n]
      {
        if x < |a| {
          assert d[x] == a[x];
          assert table[..n - 1] <= table[..n];
        } else {
          assert d[x] == b[x - |a|];
          KeyName(name, ps[x - |a|].path);
          assert table[..n][n - 1] == name;
        }
      }
    }
  }

  /** The keys of the first `n` segments are pairwise distinct. */
  lemma {:induction false} EntriesDistinct(elist: seq<Tree>, table: seq<string>, n: nat)
    requires n <= |elist| && NamesFit(table, n)
    ensures DistinctKeys(Entries(elist, table, n))
  {
    if n > 0 {
      assert NamesFit(table, n - 1);
      EntriesDistinct(elist, table, n - 1);
      EntriesNames(elist, table, n - 1);
      var a := Entries(elist, table, n - 1);
      var name := table[n - 1];
      var ps := Paths(elist[n - 1]);
      var b := Keyed(name, ps);
      PathsDistinct(elist[n - 1]);
      KeyedDistinct(name, ps);
      assert name !in table[..n - 1] by {
        forall i | 0 <= i < n - 1
          ensures table[i] != name
        {
        }
      }
      var d := a + b;
      forall i, j | 0 <= i < j < |d|
        ensures d[i].0 != d[j].0
      {
        if j >= |a| && i < |a| {
          assert d[i] == a[i] && d[j] == b[j - |a|];
          assert Split(a[i].0, '.')[0] in table[..n - 1];
          KeyName(name, ps[j - |a|].path);
        } else if j >= |a| {
          assert d[i] == b[i - |a|] && d[j] == b[j - |a|];
        } else {
          assert d[i] == a[i] && d[j] == a[j];
        }
      }
    }
  }

  /** The message loop of `_gen_dict` merges the segments' entries without
      overwriting any. */
  lemma {:induction false} GenDictMessage(elist: seq<Tree>, table: seq<string>, n: nat)
    requires n <= |elist| && NamesFit(table, n)
    ensures GenDictKids(elist, n, "", table) == Ok(Entries(elist, table, n))
  {
    if n > 0 {
      assert NamesFit(table, n - 1);
      GenDictMessage(elist, table, n - 1);
      GenDictBelow(elist[n - 1], table[n - 1], table);
      EntriesDistinct(elist, table, n);
      PutAllFresh(Entries(elist, table, n - 1), Keyed(table[n - 1], Paths(elist[n - 1])));
    }
  }

  /** `list_to_dict` on a message whose names fit: every leaf appears once,
      under its reference, and no two references coincide. */
  lemma ListToDictEntries(elist: seq<Tree>, table: seq<string>)
    requires NamesFit(table, |elist|)
    ensures ListToDict(elist, table) == Ok(Entries(elist, table, |elist|))
    ensures DistinctKeys(Entries(elist, table, |elist|))
  {
    GenDictMessage(elist, table, |elist|);
    EntriesDistinct(elist, table, |elist|);
  }

  /** The entry under segment `i`'s name and path `p` is among the first
      `n` segments' entries exactly when `p` leads to that leaf. */
  lemma {:induction false} EntriesLookup(elist: seq<Tree>, table: seq<string>, n: nat, i: nat, p: seq<nat>, v: string)
    requires n <= |elist| && NamesFit(table, n) && i < n
    ensures (table[i] + Suffix(p), v) in Entries(elist, table, n) <==> Spot(p, v) in Paths(elist[i])
  {
    var key := table[i] + Suffix(p);
    var a := Entries(elist, table, n - 1);
    var name := table[n - 1];
    var ps := Paths(elist[n - 1]);
    var b := Keyed(name, ps);
    assert Entries(elist, table, n) == a + b;
    assert NamesFit(table, n - 1);
    if i < n - 1 {
      assert (key, v) !in b by {
        KeyName(table[i], p);
        forall k | 0 <= k < |b|
          ensures b[k] != (key, v)
        {
          KeyName(name, ps[k].path);
        }
      }
      EntriesLookup(elist, table, n - 1, i, p, v);
    } else {
      assert (key, v) !in a by {
        KeyName(table[i], p);
        EntriesNames(elist, table, n - 1);
        assert name !in table[..n - 1] by {
          forall j | 0 <= j < n - 1
            ensures table[j] != name
          {
          }
        }
        forall x | 0 <= x < |a|
          ensures a[x] != (key, v)
        {
          assert Split(a[x].0, '.')[0] in table[..n - 1];
        }
      }
      assert (key, v) in b <==> Spot(p, v) in ps by {
        if (key, v) in b {
          var k :| 0 <= k < |b| && b[k] == (key, v);
          SuffixInjective(name, p, ps[k].path);
          assert ps[k] == Spot(p, v);
        }
        if Spot(p, v) in ps {
          var k :| 0 <= k < |ps| && ps[k] == Spot(p, v);
          assert b[k] == (key, v);
        }
      }
    }
  }

  /** `hl7['PID.3.1.5']`: the entry under a segment's name and a path holds
      `v` exactly when following that path in the segment reaches the leaf
      `v`. */
  lemma DictAddressing(elist: seq<Tree>, table: seq<string>, i: nat, p: seq<nat>, v: string)
    requires NamesFit(table, |elist|) && i < |elist|
    ensures (table[i] + Suffix(p), v) in Entries(elist, table, |elist|) <==>
      At(elist[i], p) == Some(Leaf(v))
  {
    EntriesLookup(elist, table, |elist|, i, p, v);
    PathsAt(elist[i], p, v);
  }

  /** With non-empty names, `list_to_dict` fails exactly when the message
      has more segments than the table has names (`IndexError`). */
  lemma {:induction false} GenDictMessageDefined(elist: seq<Tree>, table: seq<string>, n: nat)
    requires n <= |elist|
    requires forall i :: 0 <= i < |table| ==> table[i] != ""
    ensures GenDictKids(elist, n, "", table).Ok? <==> n <= |table|
    ensures GenDictKids(elist, n, "", table).Err? ==> GenDictKids(elist, n, "", table).fault == IndexError
  {
    if n > 0 {
      GenDictMessageDefined(elist, table, n - 1);
      if n - 1 < |table| {
        GenDictBelow(elist[n - 1], table[n - 1], table);
      }
    }
  }

  lemma ListToDictDefined(elist: seq<Tree>, table: seq<string>)
    requires forall i :: 0 <= i < |table| ==> table[i] != ""
    ensures ListToDict(elist, table).Ok? <==> |elist| <= |table|
    ensures ListToDict(elist, table).Err? ==> ListToDict(elist, table).fault == IndexError
  {
    GenDictMessageDefined(elist, table, |elist|);
  }
}
