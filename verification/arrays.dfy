/** The array view (`_gen_json` / `list_to_json` and `json_to_list`).

    Every list gets an empty-string filler in front, so that 0-based array
    indexing agrees with HL7's 1-based positions: `json['PID'][7][5]` is the
    leaf the dictionary calls `PID.7.5`. The view maps each segment's table
    name to its filled list; the way back drops the fillers again. */
module ArrayView {
  import opened Results
  import opened Trees
  import opened Dicts
  import opened Mapping

  /** `_gen_json`: a list gets a leading `''`; a string stays as it is. */
  function GenJson(t: Tree): (j: Tree)
    ensures j.Leaf? <==> t.Leaf?
    ensures t.Leaf? ==> j == t
    ensures t.Node? ==> |j.kids| == |t.kids| + 1 && j.kids[0] == Leaf("")
    decreases t
  {
    match t
    case Leaf(_) => t
    case Node(kids) => Node([Leaf("")] + seq(|kids|, i requires 0 <= i < |kids| => GenJson(kids[i])))
  }

  /** What `list.extend(_gen_json(item))` adds: the filled list's items, or
      for a string the string's characters one by one. */
  function Extension(t: Tree): seq<Tree> {
    match t
    case Node(_) => GenJson(t).kids
    case Leaf(s) => seq(|s|, k requires 0 <= k < |s| => Leaf([s[k]]))
  }

  /** `list_to_json` after its first `n` segments: the `n`-th is filed under
      the `n`-th table name, replacing any earlier value for that name. */
  function JsonFrom(elist: seq<Tree>, table: seq<string>, n: nat): Result<Dict<seq<Tree>>>
    requires n <= |elist|
  {
    if n == 0 then Ok([])
    else
      var acc :- JsonFrom(elist, table, n - 1);
      if n - 1 >= |table| then Err(IndexError)
      else Ok(Put(acc, table[n - 1], Extension(elist[n - 1])))
  }

  function ListToJson(elist: seq<Tree>, table: seq<string>): Result<Dict<seq<Tree>>> {
    JsonFrom(elist, table, |elist|)
  }

  /** `items[1:]`. */
  function Rest(items: seq<Tree>): seq<Tree> {
    if items == [] then [] else items[1..]
  }

  /** `remove_fillers` on one item: a string is kept, a list loses its first
      item and the rest is cleaned the same way. */
  function Strip(t: Tree): Tree
    decreases t
  {
    match t
    case Leaf(_) => t
    case Node(kids) =>
      var r := Rest(kids);
      Node(seq(|r|, i requires 0 <= i < |r| => Strip(r[i])))
  }

  /** `json_to_list`: the values in order, each with its filler dropped. */
  function JsonToList(json: Dict<seq<Tree>>): (elist: seq<Tree>)
    ensures |elist| == |json|
  {
    seq(|json|, i requires 0 <= i < |json| =>
      var r := Rest(json[i].1);
      Node(seq(|r|, k requires 0 <= k < |r| => Strip(r[k]))))
  }

  /** Dropping the fillers undoes adding them, for every tree. */
  lemma {:induction false} StripGenJson(t: Tree)
    ensures Strip(GenJson(t)) == t
    decreases t
  {
    match t
    case Leaf(_) =>
    case Node(kids) =>
      var r := Rest(GenJson(t).kids);
      assert |r| == |kids|;
      forall i | 0 <= i < |kids|
        ensures Strip(r[i]) == kids[i]
      {
        assert r[i] == GenJson(kids[i]);
        StripGenJson(kids[i]);
      }
      assert seq(|r|, i requires 0 <= i < |r| => Strip(r[i])) == kids;
  }

  /** Every one of the first `n` segments filed under its own table name. */
  function Filing(elist: seq<Tree>, table: seq<string>, n: nat): (d: Dict<seq<Tree>>)
    requires n <= |elist| && n <= |table|
    ensures |d| == n
    ensures forall i :: 0 <= i < n ==> d[i] == (table[i], Extension(elist[i]))
  {
    if n == 0 then [] else Filing(elist, table, n - 1) + [(table[n - 1], Extension(elist[n - 1]))]
  }

  /** With distinct names for its segments, the array view files every
      segment under its own name, in order. */
  lemma {:induction false} JsonFiles(elist: seq<Tree>, table: seq<string>, n: nat)
    requires n <= |elist| && n <= |table|
    requires forall i, j :: 0 <= i < j < n ==> table[i] != table[j]
    ensures JsonFrom(elist, table, n) == Ok(Filing(elist, table, n))
  {
    if n > 0 {
      JsonFiles(elist, table, n - 1);
      var acc := Filing(elist, table, n - 1);
      assert table[n - 1] !in Keys(acc) by {
        forall k | 0 <= k < n - 1
          ensures Keys(acc)[k] != table[n - 1]
        {
          assert Keys(acc)[k] == table[k];
        }
      }
    }
  }

  /** `json_to_list(list_to_json(elist)) == elist` when every item is a
      segment list and the table names the segments distinctly. */
  lemma JsonRoundTrip(elist: seq<Tree>, table: seq<string>)
    requires |elist| <= |table|
    requires forall i, j :: 0 <= i < j < |elist| ==> table[i] != table[j]
    requires forall i :: 0 <= i < |elist| ==> elist[i].Node?
    ensures ListToJson(elist, table).Ok?
    ensures JsonToList(ListToJson(elist, table).value) == elist
  {
    JsonFiles(elist, table, |elist|);
    var json := ListToJson(elist, table).value;
    forall i | 0 <= i < |elist|
      ensures JsonToList(json)[i] == elist[i]
    {
      assert json[i].1 == GenJson(elist[i]).kids;
      StripGenJson(elist[i]);
    }
  }

  /** Whatever the table holds, the array view fails exactly
      when the message has more segments than the table has names. */
  lemma {:induction false} JsonDefined(elist: seq<Tree>, table: seq<string>, n: nat)
    requires n <= |elist|
    ensures JsonFrom(elist, table, n).Ok? <==> n <= |table|
    ensures JsonFrom(elist, table, n).Err? ==> JsonFrom(elist, table, n).fault == IndexError
  {
    if n > 0 {
      JsonDefined(elist, table, n - 1);
    }
  }

  // ---- addressing ----

  /** Array indexing: 0-based at every level. */
  function Index(t: Tree, p: seq<nat>): Option<Tree> {
    if p == [] then Some(t)
    else match t
      case Leaf(_) => None
      case Node(kids) => if p[0] < |kids| then Index(kids[p[0]], p[1..]) else None
  }

  predicate Positive(p: seq<nat>) {
    forall k :: 0 <= k < |p| ==> p[k] >= 1
  }

  /** Thanks to the fillers, 0-based indexing of the array form follows the
      same positions as 1-based addressing of the list form. */
  lemma {:induction false} IndexGenJson(t: Tree, p: seq<nat>)
    requires Positive(p)
    ensures Index(GenJson(t), p) == (if At(t, p).Some? then Some(GenJson(At(t, p).value)) else None)
    decreases t
  {
    if p != [] {
      match t
      case Leaf(_) =>
      case Node(kids) =>
        assert p[0] >= 1;
        if p[0] <= |kids| {
          assert GenJson(t).kids[p[0]] == GenJson(kids[p[0] - 1]);
          IndexGenJson(kids[p[0] - 1], p[1..]);
        }
    }
  }

  /** `json['PID'][7][5]` holds `v` exactly when `hl7['PID.7.5']` does, for
      every segment and every path of positive positions. */
  lemma ArrayMatchesDict(elist: seq<Tree>, table: seq<string>, i: nat, p: seq<nat>, v: string)
    requires NamesFit(table, |elist|) && i < |elist| && elist[i].Node?
    requires Positive(p) && p != []
    ensures ListToJson(elist, table).Ok? && |ListToJson(elist, table).value| == |elist|
    ensures Index(Node(ListToJson(elist, table).value[i].1), p) == Some(Leaf(v)) <==>
      (table[i] + Suffix(p), v) in Entries(elist, table, |elist|)
  {
    JsonFiles(elist, table, |elist|);
    assert ListToJson(elist, table).value[i].1 == GenJson(elist[i]).kids;
    assert Node(GenJson(elist[i]).kids) == GenJson(elist[i]);
    IndexGenJson(elist[i], p);
    DictAddressing(elist, table, i, p, v);
    if At(elist[i], p).Some? {
      var u := At(elist[i], p).value;
      assert GenJson(u) == Leaf(v) <==> u == Leaf(v);
    }
  }
}
