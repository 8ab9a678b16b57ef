/** The serializer (`_gen_hl7` / `list_to_hl7`): tree back to message text.

    The separator written after an item depends on how deep the list holding
    it sits (the message list is depth 0): a string item is followed by `\n`,
    `|`, `^`, `^`, `~` at depths 0 to 4, and a list, once its items are
    written, has its last character replaced by `''`, `\n`, `|`, `~` at
    depths 0 to 3. Those two tables index a five-entry tuple, so a list nested
    four or more levels deep raises IndexError. The `|` marker leaf is
    skipped, and each segment is preceded by its table name cut at the first
    `_` and a `|`. */
module Serializer {
  import opened Results
  import opened Strings
  import opened Trees
  import opened Segments
  import opened Parser

  /** What follows a string item in a list at `depth`. */
  function LeafSeparator(depth: nat): Result<string> {
    if depth == 0 then Ok("\n")
    else if depth == 1 then Ok("|")
    else if depth == 2 || depth == 3 then Ok("^")
    else if depth == 4 then Ok("~")
    else Err(IndexError)
  }

  /** What replaces the last character of a list written at `depth`. */
  function Trailer(depth: nat): Result<string> {
    if depth == 0 then Ok("")
    else if depth == 1 then Ok("\n")
    else if depth == 2 then Ok("|")
    else if depth == 3 then Ok("~")
    else Err(IndexError)
  }

  /** One item of a list at `depth` below a segment (`next_segment` set). */
  function EmitItem(t: Tree, depth: nat): Result<string>
    decreases t, 1
  {
    match t
    case Leaf(v) =>
      if v == FieldMarker then Ok("")
      else
        var sep :- LeafSeparator(depth);
        Ok(v + sep)
    case Node(kids) =>
      var body :- EmitAll(kids, depth + 1);
      var tail :- Trailer(depth + 1);
      Ok(DropLast(body) + tail)
  }

  /** The items of a list, left to right. */
  function EmitAll(items: seq<Tree>, depth: nat): Result<string>
    decreases items, 0
  {
    if items == [] then Ok("")
    else
      var head :- EmitItem(items[0], depth);
      var rest :- EmitAll(items[1..], depth);
      Ok(head + rest)
  }

  /** The message list: a list item is a segment, written after the name at
      `ptr` in the table and a `|`; the position advances after each segment
      but never past the table's last entry. */
  function EmitSegments(items: seq<Tree>, table: seq<string>, ptr: nat): Result<string>
    decreases |items|
  {
    if items == [] then Ok("")
    else if items[0].Leaf? then
      var head :- EmitItem(items[0], 0);
      var rest :- EmitSegments(items[1..], table, ptr);
      Ok(head + rest)
    else if ptr >= |table| then Err(IndexError)
    else
      var name := Split(table[ptr], '_')[0];
      var body :- EmitItem(items[0], 0);
      var next := if ptr < |table| - 1 then ptr + 1 else ptr;
      var rest :- EmitSegments(items[1..], table, next);
      Ok(name + "|" + body + rest)
  }

  /** `list_to_hl7`: the whole message text. */
  function Serialize(elist: seq<Tree>, table: seq<string>): Result<string> {
    var text :- EmitSegments(elist, table, 0);
    Ok(DropLast(text))
  }

  // ---- round trip ----

  /** Items that each write some string followed by separator `c` write the
      terminated concatenation of those strings. */
  lemma {:induction false} EmitAllTerminated(items: seq<Tree>, depth: nat, ys: seq<string>, c: char)
    requires |ys| == |items|
    requires forall i :: 0 <= i < |items| ==> EmitItem(items[i], depth) == Ok(ys[i] + [c])
    ensures EmitAll(items, depth) == Ok(Terminated(ys, c))
  {
    if items != [] {
      EmitAllTerminated(items[1..], depth, ys[1..], c);
    }
  }

  lemma {:induction false} EmitAllConcat(a: seq<Tree>, b: seq<Tree>, depth: nat, x: string, y: string)
    requires EmitAll(a, depth) == Ok(x) && EmitAll(b, depth) == Ok(y)
    ensures EmitAll(a + b, depth) == Ok(x + y)
  {
    if a != [] {
      assert EmitItem(a[0], depth).Ok? && EmitAll(a[1..], depth).Ok?;
      var h := EmitItem(a[0], depth).value;
      var r := EmitAll(a[1..], depth).value;
      assert x == h + r;
      EmitAllConcat(a[1..], b, depth, r, y);
      assert (a + b)[0] == a[0];
      assert (a + b)[1..] == a[1..] + b;
      assert x + y == h + (r + y);
    } else {
      assert a + b == b;
      assert x + y == y;
    }
  }

  /** A one-item list writes what its item writes. */
  lemma EmitSingle(t: Tree, depth: nat, x: string)
    requires EmitItem(t, depth) == Ok(x)
    ensures EmitAll([t], depth) == Ok(x)
  {
    assert [t][1..] == [];
    assert x + "" == x;
  }

  /** A component list `Split(s, '^')` written as a list at `depth` + 1
      gives `s` back, followed by the list's trailer. */
  lemma ComponentsEmit(s: string, depth: nat, trailer: char)
    requires depth == 1 || depth == 2
    requires '|' !in s
    requires Trailer(depth + 1) == Ok([trailer])
    ensures EmitItem(Node(LeafList(Split(s, '^'))), depth) == Ok(s + [trailer])
  {
    var parts := Split(s, '^');
    SplitPieces(s, '^');
    forall i | 0 <= i < |parts|
      ensures EmitItem(LeafList(parts)[i], depth + 1) == Ok(parts[i] + ['^'])
    {
      if parts[i] == FieldMarker {
        assert '|' in parts[i];
      }
    }
    EmitAllTerminated(LeafList(parts), depth + 1, parts, '^');
    TerminatedJoin(parts, '^');
    JoinSplit(s, '^');
  }

  /** Every field of a line is written back as itself followed by `|`. */
  lemma FieldEmits(f: string)
    requires '|' !in f
    ensures EmitAll(ParseField(f), 1) == Ok(f + "|")
  {
    if f == EncodingCharacters {
      assert EmitItem(Leaf(FieldMarker), 1) == Ok("");
      assert EmitItem(Leaf(EncodingCharacters), 1) == Ok(f + "|");
      EmitSingle(Leaf(EncodingCharacters), 1, f + "|");
      assert [Leaf(FieldMarker), Leaf(EncodingCharacters)][1..] == [Leaf(EncodingCharacters)];
      assert "" + (f + "|") == f + "|";
    } else if '~' in f {
      var reps := Split(f, '~');
      SplitPieces(f, '~');
      var nodes := seq(|reps|, r requires 0 <= r < |reps| => Node(LeafList(Split(reps[r], '^'))));
      forall r | 0 <= r < |reps|
        ensures EmitItem(nodes[r], 2) == Ok(reps[r] + ['~'])
      {
        assert forall ch :: ch in reps[r] ==> ch in f;
        ComponentsEmit(reps[r], 2, '~');
      }
      EmitAllTerminated(nodes, 2, reps, '~');
      TerminatedJoin(reps, '~');
      JoinSplit(f, '~');
      assert EmitAll(nodes, 2) == Ok(f + "~");
      assert DropLast(f + "~") == f;
      assert EmitItem(Node(nodes), 1) == Ok(f + "|");
      assert ParseField(f) == [Node(nodes)];
      EmitSingle(Node(nodes), 1, f + "|");
    } else {
      var parts := Split(f, '^');
      JoinSplit(f, '^');
      if |parts| == 1 {
        assert parts[0] == f;
        assert FieldMarker[0] == '|';
        assert f != FieldMarker;
        assert EmitItem(Leaf(f), 1) == Ok(f + "|");
        EmitSingle(Leaf(f), 1, f + "|");
      } else {
        ComponentsEmit(f, 1, '|');
        EmitSingle(Node(LeafList(parts)), 1, f + "|");
      }
    }
  }

  lemma {:induction false} FieldsEmit(fields: seq<string>)
    requires forall i :: 0 <= i < |fields| ==> '|' !in fields[i]
    ensures EmitAll(ParseFields(fields), 1) == Ok(Terminated(fields, '|'))
  {
    if fields != [] {
      FieldEmits(fields[0]);
      FieldsEmit(fields[1..]);
      EmitAllConcat(ParseField(fields[0]), ParseFields(fields[1..]), 1,
                    fields[0] + "|", Terminated(fields[1..], '|'));
    }
  }

  /** A line with a `|` is written back as itself followed by `\n`, once its
      segment id is in front of it. */
  lemma LineEmits(line: string)
    requires '|' in line
    ensures line == SegmentId(line) + "|" + line[|SegmentId(line)| + 1..]
    ensures EmitItem(ParseLine(line), 0) == Ok(line[|SegmentId(line)| + 1..] + "\n")
  {
    var parts := Split(line, '|');
    SplitPieces(line, '|');
    SplitFree(line, '|');
    var fields := parts[1..];
    assert forall i :: 0 <= i < |fields| ==> fields[i] == parts[i + 1];
    FieldsEmit(fields);
    TerminatedJoin(fields, '|');
    JoinSplit(line, '|');
    assert parts == [parts[0]] + fields;
    assert line == parts[0] + "|" + Join(fields, '|');
  }

  /** The segments parsed from `lines[k..]`. */
  function ParsedFrom(lines: seq<string>, k: nat): (items: seq<Tree>)
    requires k <= |lines|
    ensures |items| == |lines| - k
    ensures forall i :: 0 <= i < |items| ==> items[i] == ParseLine(lines[k + i])
  {
    seq(|lines| - k, i requires 0 <= i < |lines| - k => ParseLine(lines[k + i]))
  }

  /** One segment step of the message loop. */
  lemma EmitSegmentsStep(items: seq<Tree>, table: seq<string>, k: nat, body: string, rest: string)
    requires items != [] && items[0].Node? && k < |table|
    requires EmitItem(items[0], 0) == Ok(body)
    requires EmitSegments(items[1..], table, if k < |table| - 1 then k + 1 else k) == Ok(rest)
    ensures EmitSegments(items, table, k) == Ok(Split(table[k], '_')[0] + "|" + body + rest)
  {
  }

  lemma {:induction false} SegmentsEmit(lines: seq<string>, table: seq<string>, k: nat)
    requires |table| == |lines| && k < |lines|
    requires forall i :: 0 <= i < |lines| ==> '|' in lines[i]
    requires forall i :: 0 <= i < |lines| ==> Split(table[i], '_')[0] == SegmentId(lines[i])
    ensures EmitSegments(ParsedFrom(lines, k), table, k) == Ok(Terminated(lines[k..], '\n'))
    decreases |lines| - k
  {
    var items := ParsedFrom(lines, k);
    var line := lines[k];
    var id := SegmentId(line);
    var tail := line[|id| + 1..];
    var rest := lines[k + 1..];
    var restText := Terminated(rest, '\n');
    var next := if k < |table| - 1 then k + 1 else k;
    assert Terminated(lines[k..], '\n') == line + "\n" + restText by {
      assert lines[k..] == [line] + rest;
      assert lines[k..][1..] == rest;
    }
    assert line == id + "|" + tail && EmitItem(items[0], 0) == Ok(tail + "\n") by {
      LineEmits(line);
    }
    assert EmitSegments(items[1..], table, next) == Ok(restText) by {
      if k + 1 < |lines| {
        SegmentsEmit(lines, table, k + 1);
        assert items[1..] == ParsedFrom(lines, k + 1);
      } else {
        assert items[1..] == [];
        assert rest == [];
      }
    }
    assert EmitSegments(items, table, k) == Ok(id + "|" + (tail + "\n") + restText) by {
      assert Split(table[k], '_')[0] == id;
      EmitSegmentsStep(items, table, k, tail + "\n", restText);
    }
    assert id + "|" + (tail + "\n") + restText == line + "\n" + restText by {
      Assoc(id + "|", tail, "\n");
    }
  }

  /** `_gen_hl7(hl7_to_list(text)) == text` for every well-formed text: the
      marker is skipped, the `_k` suffixes are cut off and each level's last
      separator is exchanged for its parent's. */
  lemma RoundTrip(text: string)
    requires WellFormedText(text)
    ensures Serialize(Parse(text).elist, Parse(text).table) == Ok(text)
  {
    if text != "" {
      SplitLinesOfText(text);
      var lines := Split(text, '\n');
      var ids := seq(|lines|, i requires 0 <= i < |lines| => SegmentId(lines[i]));
      DisambiguateDistinct(ids);
      SegmentsEmit(lines, Disambiguate(ids), 0);
      assert lines[0..] == lines;
      assert Parse(text).elist == ParsedFrom(lines, 0);
      TerminatedJoin(lines, '\n');
      JoinSplit(text, '\n');
    }
  }
}
