/** The parser (`hl7_to_list`): raw message text to the embedded-list tree
    plus the segment table.

    Each line is split on the field delimiter `|`; the first piece is the
    segment id, which goes to the table instead of the tree. Every other piece
    becomes one field:
      - the encoding-characters field `^~\&` is kept whole, preceded by a `|`
        marker leaf so that it is counted as the segment's second field, as
        HL7 numbers MSH-1 (the field separator) and MSH-2;
      - a piece containing the repetition delimiter `~` becomes a list of
        repetitions, each split on the component delimiter `^`;
      - a piece with several `^`-parts becomes a component list;
      - any other piece is a plain string. */
module Parser {
  import opened Strings
  import opened Trees
  import opened Segments

  const EncodingCharacters: string := "^~\\&"

  /** The leaf inserted in front of the encoding characters. */
  const FieldMarker: string := "|"

  /** The characters at which Python's `str.splitlines` ends a line. */
  predicate IsLineBoundary(ch: char) {
    || ch == '\n' || ch == '\r'
    || ch as int == 0x0B || ch as int == 0x0C
    || ch as int == 0x1C || ch as int == 0x1D || ch as int == 0x1E
    || ch as int == 0x85 || ch as int == 0x2028 || ch as int == 0x2029
  }

  predicate NoBoundary(s: string) {
    forall k :: 0 <= k < |s| ==> !IsLineBoundary(s[k])
  }

  function FirstBoundary(s: string): (i: nat)
    requires !NoBoundary(s)
    ensures i < |s| && IsLineBoundary(s[i]) && NoBoundary(s[..i])
  {
    if IsLineBoundary(s[0]) then 0
    else
      var j := FirstBoundary(s[1..]);
      assert s[..j + 1] == [s[0]] + s[1..][..j];
      1 + j
  }

  /** `str.splitlines()`: the lines of `s` without their terminators; `\r\n`
      ends a single line, and a final terminator does not open an empty
      last line. */
  function SplitLines(s: string): seq<string>
    decreases |s|
  {
    if s == [] then []
    else if NoBoundary(s) then [s]
    else
      var i := FirstBoundary(s);
      var next := if s[i] == '\r' && i + 1 < |s| && s[i + 1] == '\n' then i + 2 else i + 1;
      [s[..i]] + SplitLines(s[next..])
  }

  /** The items one field contributes to its segment's list. */
  function ParseField(f: string): (items: seq<Tree>)
    ensures |items| == if f == EncodingCharacters then 2 else 1
    ensures forall i :: 0 <= i < |items| ==> IsField(items[i])
  {
    if f == EncodingCharacters then
      [Leaf(FieldMarker), Leaf(EncodingCharacters)]
    else if '~' in f then
      SplitPieces(f, '~');
      var reps := Split(f, '~');
      [Node(seq(|reps|, r requires 0 <= r < |reps| => Node(LeafList(Split(reps[r], '^')))))]
    else
      var parts := Split(f, '^');
      if |parts| == 1 then [Leaf(parts[0])] else [Node(LeafList(parts))]
  }

  /** The items of all fields of a line, in order. */
  function ParseFields(fields: seq<string>): (items: seq<Tree>)
    ensures forall i :: 0 <= i < |items| ==> IsField(items[i])
  {
    if fields == [] then [] else ParseField(fields[0]) + ParseFields(fields[1..])
  }

  /** The segment id of a line: everything before its first `|`. */
  function SegmentId(line: string): string {
    Split(line, '|')[0]
  }

  /** The segment a line becomes: its fields, without the id. */
  function ParseLine(line: string): (segment: Tree)
    ensures IsSegment(segment)
  {
    Node(ParseFields(Split(line, '|')[1..]))
  }

  // ---- what a field becomes, described by its delimiters ----

  /** `ts` are one or more leaves free of `^` whose texts, joined with `^`,
      give `s`. */
  predicate ComponentsOf(ts: seq<Tree>, s: string) {
    && |ts| >= 1 && AllLeaves(ts)
    && (forall k :: 0 <= k < |ts| ==> '^' !in ts[k].text)
    && Join(Texts(ts), '^') == s
  }

  /** The tree a field other than the encoding characters stands for: with a
      `~`, one repetition per `~`-piece, each that piece's components; with a
      `^` but no `~`, the components of the field; otherwise the field itself
      as a plain string. */
  predicate FieldOf(t: Tree, f: string) {
    if '~' in f then
      && IsRepetitions(t) && |t.kids| == |Split(f, '~')|
      && forall r :: 0 <= r < |t.kids| ==> ComponentsOf(t.kids[r].kids, Split(f, '~')[r])
    else if '^' in f then
      IsComponents(t) && ComponentsOf(t.kids, f)
    else
      t == Leaf(f)
  }

  /** Splitting on `^` gives the only component list of `s`. */
  lemma SplitComponents(s: string)
    ensures ComponentsOf(LeafList(Split(s, '^')), s)
  {
    var ts := LeafList(Split(s, '^'));
    SplitFree(s, '^');
    JoinSplit(s, '^');
    assert Texts(ts) == Split(s, '^');
  }

  lemma ComponentsUnique(ts: seq<Tree>, s: string)
    requires ComponentsOf(ts, s)
    ensures ts == LeafList(Split(s, '^'))
  {
    SplitJoin(Texts(ts), '^');
  }

  /** `hl7_to_list` on one field: the encoding characters give the marker
      pair; any other field gives exactly one item, the tree `FieldOf`
      describes, so a plain string exactly when the field has neither `^`
      nor `~`, and a list of repetitions exactly when it has a `~`. */
  lemma ParseFieldShape(f: string)
    ensures f == EncodingCharacters ==> ParseField(f) == [Leaf(FieldMarker), Leaf(EncodingCharacters)]
    ensures f != EncodingCharacters ==> |ParseField(f)| == 1 && FieldOf(ParseField(f)[0], f)
    ensures f != EncodingCharacters ==> (ParseField(f)[0].Leaf? <==> '^' !in f && '~' !in f)
    ensures f != EncodingCharacters ==> (IsRepetitions(ParseField(f)[0]) <==> '~' in f)
  {
    if f != EncodingCharacters {
      var t := ParseField(f)[0];
      if '~' in f {
        var reps := Split(f, '~');
        SplitPieces(f, '~');
        forall r | 0 <= r < |t.kids|
          ensures ComponentsOf(t.kids[r].kids, reps[r])
        {
          SplitComponents(reps[r]);
        }
      } else if '^' in f {
        SplitPieces(f, '^');
        SplitComponents(f);
      } else {
        assert Split(f, '^') == [f];
      }
    }
  }

  /** The converse: the only item a field other than the encoding characters
      gives is the tree `FieldOf` describes. */
  lemma ParseFieldExactly(f: string, t: Tree)
    requires f != EncodingCharacters
    ensures ParseField(f) == [t] <==> FieldOf(t, f)
  {
    ParseFieldShape(f);
    if FieldOf(t, f) {
      var u := ParseField(f)[0];
      if '~' in f {
        forall r | 0 <= r < |t.kids|
          ensures t.kids[r] == u.kids[r]
        {
          ComponentsUnique(t.kids[r].kids, Split(f, '~')[r]);
          ComponentsUnique(u.kids[r].kids, Split(f, '~')[r]);
        }
        assert t.kids == u.kids;
      } else if '^' in f {
        ComponentsUnique(t.kids, f);
        ComponentsUnique(u.kids, f);
      }
    }
  }

  /** Two one-character components, as the parser lists them. */
  lemma PairComponents(x: string, y: string)
    requires |x| == 1 && |y| == 1 && x[0] != '^' && y[0] != '^'
    ensures Node(LeafList(Split(x + "^" + y, '^'))) == Node([Leaf(x), Leaf(y)])
  {
    var s := x + "^" + y;
    assert s[1] == '^' && '^' !in s[..1] && s[..1] == x && s[2..] == y;
    assert IndexOf(s, '^') == 1;
    assert '^' !in y;
    assert Split(y, '^') == [y];
    var parts := Split(s, '^');
    assert parts == [s[..1]] + Split(s[2..], '^');
    assert parts == [x, y];
    var ts := LeafList(parts);
    assert ts[0].Leaf? && ts[0].text == x && ts[1].Leaf? && ts[1].text == y;
    assert ts == [Leaf(x), Leaf(y)];
  }

  lemma ExampleRepetitions()
    ensures Split("A^B~C^D", '~') == ["A" + "^" + "B", "C" + "^" + "D"]
  {
    var f := "A^B~C^D";
    assert f[3] == '~' && '~' !in f[..3] && f[..3] == "A^B" && f[4..] == "C^D";
    assert IndexOf(f, '~') == 3;
    assert '~' !in "C^D";
    assert Split("C^D", '~') == ["C^D"];
    assert Split(f, '~') == [f[..3]] + Split(f[4..], '~');
    assert "A" + "^" + "B" == "A^B" && "C" + "^" + "D" == "C^D";
  }

  /** A field given as both components and repetitions:
      `A^B~C^D` is two repetitions of two components each. */
  lemma RepeatedComponentsExample()
    ensures ParseField("A^B~C^D") == [Node([Node([Leaf("A"), Leaf("B")]), Node([Leaf("C"), Leaf("D")])])]
  {
    var f := "A^B~C^D";
    var reps := Split(f, '~');
    ExampleRepetitions();
    PairComponents("A", "B");
    PairComponents("C", "D");
    var kids := seq(|reps|, r requires 0 <= r < |reps| => Node(LeafList(Split(reps[r], '^'))));
    assert ParseField(f) == [Node(kids)] by {
      assert f != EncodingCharacters && '~' in f;
    }
    assert kids == [Node([Leaf("A"), Leaf("B")]), Node([Leaf("C"), Leaf("D")])];
  }

  /** No field is the encoding characters. */
  predicate PlainFields(fields: seq<string>) {
    forall i :: 0 <= i < |fields| ==> fields[i] != EncodingCharacters
  }

  /** Fields other than the encoding characters give one item each, in
      order, each the tree `FieldOf` describes. */
  lemma {:induction false} ParseFieldsPlain(fields: seq<string>)
    requires PlainFields(fields)
    ensures |ParseFields(fields)| == |fields|
    ensures forall i :: 0 <= i < |fields| ==> FieldOf(ParseFields(fields)[i], fields[i])
  {
    if fields != [] {
      ParseFieldShape(fields[0]);
      ParseFieldsPlain(fields[1..]);
      var items := ParseFields(fields);
      forall i | 0 <= i < |fields|
        ensures FieldOf(items[i], fields[i])
      {
        if i > 0 {
          assert items[i] == ParseFields(fields[1..])[i - 1];
          assert fields[i] == fields[1..][i - 1];
        }
      }
    }
  }

  /** `hl7_to_list` on one line: the id before the first `|` goes to the
      table and the pieces after it make the segment. A line without `|` is
      all id and gives an empty segment. */
  lemma ParseLineId(line: string)
    ensures '|' !in SegmentId(line)
    ensures '|' !in line ==> SegmentId(line) == line && ParseLine(line) == Node([])
    ensures '|' in line ==> line == SegmentId(line) + [FieldMarker[0]] + Join(Split(line, '|')[1..], '|')
  {
    var parts := Split(line, '|');
    SplitFree(line, '|');
    if '|' in line {
      SplitPieces(line, '|');
      JoinSplit(line, '|');
      assert parts == [parts[0]] + parts[1..];
    }
  }

  /** The segment's items: a line without the encoding characters gives one
      item per field; a line whose first field is the encoding characters
      (an MSH line) gives the marker pair first, so each later field sits
      one place further on. */
  lemma ParseLineFields(line: string)
    ensures PlainFields(Split(line, '|')[1..]) ==>
      && |ParseLine(line).kids| == |Split(line, '|')| - 1
      && forall i :: 0 <= i < |Split(line, '|')| - 1 ==> FieldOf(ParseLine(line).kids[i], Split(line, '|')[i + 1])
    ensures |Split(line, '|')| >= 2 && Split(line, '|')[1] == EncodingCharacters && PlainFields(Split(line, '|')[2..]) ==>
      && ParseLine(line).kids[..2] == [Leaf(FieldMarker), Leaf(EncodingCharacters)]
      && |ParseLine(line).kids| == |Split(line, '|')|
      && forall i :: 2 <= i < |Split(line, '|')| ==> FieldOf(ParseLine(line).kids[i], Split(line, '|')[i])
  {
    var parts := Split(line, '|');
    var fields := parts[1..];
    if PlainFields(fields) {
      ParseFieldsPlain(fields);
    }
    if |parts| >= 2 && parts[1] == EncodingCharacters && PlainFields(parts[2..]) {
      assert fields == [parts[1]] + parts[2..];
      ParseFieldsPlain(parts[2..]);
      var kids := ParseLine(line).kids;
      assert kids == [Leaf(FieldMarker), Leaf(EncodingCharacters)] + ParseFields(parts[2..]);
      forall i | 2 <= i < |parts|
        ensures FieldOf(kids[i], parts[i])
      {
        assert kids[i] == ParseFields(parts[2..])[i - 2];
        assert parts[i] == parts[2..][i - 2];
      }
    }
  }

  datatype Parsed = Parsed(elist: seq<Tree>, table: seq<string>)

  /** A whole message: one segment per line and the disambiguated ids. */
  function Parse(text: string): (p: Parsed)
    ensures |p.elist| == |p.table| == |SplitLines(text)|
    ensures forall i :: 0 <= i < |p.elist| ==> IsSegment(p.elist[i])
  {
    var lines := SplitLines(text);
    var elist := seq(|lines|, i requires 0 <= i < |lines| => ParseLine(lines[i]));
    var ids := seq(|lines|, i requires 0 <= i < |lines| => SegmentId(lines[i]));
    DisambiguateRenames(ids);
    Parsed(elist, Disambiguate(ids))
  }

  // ---- line splitting on the well-formed texts the round trip covers ----

  /** Lines joined with `\n` split back into the same lines, provided no line
      holds a line boundary and the last line is not empty. */
  lemma {:induction false} SplitLinesJoin(lines: seq<string>)
    requires |lines| >= 1 && lines[|lines| - 1] != ""
    requires forall i :: 0 <= i < |lines| ==> NoBoundary(lines[i])
    ensures SplitLines(Join(lines, '\n')) == lines
  {
    if |lines| > 1 {
      var rest := Join(lines[1..], '\n');
      var s := lines[0] + ['\n'] + rest;
      assert s[|lines[0]|] == '\n';
      assert !NoBoundary(s);
      var i := FirstBoundary(s);
      assert forall k :: 0 <= k < |lines[0]| ==> s[k] == lines[0][k];
      assert i == |lines[0]|;
      assert s[..i] == lines[0];
      assert s[i + 1..] == rest;
      SplitLinesJoin(lines[1..]);
      assert lines == [lines[0]] + lines[1..];
    }
  }

  /** The texts the converter reproduces: no line boundary but `\n`, and
      every line holds a `|` after an id without `_`. The empty text is
      well formed too. */
  predicate WellFormedText(text: string) {
    text == "" ||
    ((forall ch :: ch in text && ch != '\n' ==> !IsLineBoundary(ch)) &&
     (forall i :: 0 <= i < |Split(text, '\n')| ==>
        '|' in Split(text, '\n')[i] && '_' !in SegmentId(Split(text, '\n')[i])))
  }

  /** On a well-formed text, `splitlines` is a split on `\n`. */
  lemma SplitLinesOfText(text: string)
    requires text != "" && WellFormedText(text)
    ensures SplitLines(text) == Split(text, '\n')
  {
    var lines := Split(text, '\n');
    SplitPieces(text, '\n');
    SplitFree(text, '\n');
    JoinSplit(text, '\n');
    forall i | 0 <= i < |lines|
      ensures NoBoundary(lines[i])
    {
      forall k | 0 <= k < |lines[i]|
        ensures !IsLineBoundary(lines[i][k])
      {
        var ch := lines[i][k];
        assert ch in lines[i];
        assert ch in text && ch != '\n';
      }
    }
    assert '|' in lines[|lines| - 1];
    SplitLinesJoin(lines);
  }
}
