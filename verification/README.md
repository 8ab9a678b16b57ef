# HL7 v2 message converter — a Dafny model

The converter in `hl7.py` reads an HL7 v2 message and keeps it in three views:

- **Embedded list.** A list of segments. Each segment is a list of fields. A field is one of:
  - a string;
  - a list of component strings;
  - a list of repetitions, each a list of component strings.
- **Reference dictionary.** It maps keys such as `PID.3.1.5` to leaf strings.
- **Array view.** It maps segment names to nested arrays in which index 0 is a filler.

The converter writes each view back as the others. It also prints an indented listing of every reference.

This project models the conversion core:

- the segment-name table (`_sort_segments`);
- parsing (`hl7_to_list`);
- serialisation (`_gen_hl7`);
- the dictionary view and its way back (`_gen_dict`, `dict_to_list`);
- the array view and its way back (`_gen_json`, `json_to_list`);
- the structure listing (`_gen_structure`).

The modules are:

| module | file | what it holds |
|---|---|---|
| `Results` | results.dfy | `Result`/`Option`. Python's `IndexError`, `KeyError` and `ValueError` become error values. |
| `Strings` | strings.dfy | `str.split`, `'sep'.join`, `str(n)` and `int(s)` on decimal numerals. |
| `Trees` | trees.dfy | The embedded list as `Tree = Leaf(text) \| Node(kids)`. Its field shapes, and 1-based addressing of its leaves. |
| `Dicts` | dicts.dfy | Python's insertion-ordered `dict` as a sequence of pairs. |
| `Segments` | segments.dfy | The renaming of repeated segment ids (`PID`, `PID_1`, `PID_2`, …). |
| `Parser` | parser.dfy | `splitlines`, field splitting and the `MSH` encoding-characters rule. |
| `Serializer` | serializer.dfy | `_gen_hl7` with its per-depth separators, and the parse/serialise round trip. |
| `Mapping` | mapping.dfy | `_gen_dict`: references, lookup, distinct keys. |
| `ArrayView` | arrays.dfy | `_gen_json`, `list_to_json`, `json_to_list`. |
| `Structure` | structure.dfy | `_gen_structure`. |
| `Rebuild` | rebuild.dfy | `dict_to_list` as written: its loop variables, one step per key, and the end-of-dictionary flush. |
| `RowsBack` | rows.dfy | Which message lists `dict_to_list` rebuilds from their dictionary, and the proof. |
| `Counterexamples` | counterexamples.dfy | Small messages that `dict_to_list` as written gets wrong. |
| `Repair` | repair.dfy | `dict_to_list` with field boundaries closed explicitly, proved to invert `list_to_dict` for every well-shaped message. |

A message object also holds a list of segment ids (`_segments`), which this model calls the *table*. Every operation that reads it takes it as a parameter.

## Model

| member | source | states |
|---|---|---|
| Segments.DisambiguateRenames | hl7.py:436-446 | The table has one name per raw id, in line order. An id seen `k` times before is renamed `id_k`; its first occurrence keeps its name. |
| Segments.RepeatCounted | hl7.py:439-441 | A later occurrence of an id has strictly more earlier occurrences, so it gets a larger counter. |
| Segments.DisambiguateDistinct | hl7.py:425-446 | When no raw id contains `_`, all names in the table differ. Cutting each name at its first `_` gives its raw id back. |
| Segments.StripRenamed | hl7.py:355 | `name.split('_')[0]` recovers the raw id from any renamed occurrence. |
| Segments.RenamedInjective | hl7.py:439-444 | Two occurrences of one id with different counters get different names. |
| Segments.DisambiguateKeepsIdsPlain | hl7.py:441 | Renaming keeps ids non-empty and adds no `.`, so names stay usable as dictionary key prefixes. |
| Parser.ParseField | hl7.py:64-79 | The encoding-characters field yields two items (`'\|'` and `'^~\&'`); any other field yields one. Every item is a well-shaped field: a string, a component list, or a list of two or more repetitions. |
| Parser.ParseFieldShape | hl7.py:64-79 | The encoding characters give the items `'\|'` and `'^~\&'`. Any other field gives exactly one item, the tree `FieldOf` describes. That item is a plain string exactly when the field has neither `^` nor `~`, and the string is the field itself. It is a list of repetitions exactly when the field has a `~`, one per `~`-piece, and each repetition's components joined with `^` give that piece back. Otherwise it is a component list whose components joined with `^` give the field back. No component holds a `^`. |
| Parser.ParseFieldExactly | hl7.py:64-79 | For a field other than the encoding characters, a tree is the parser's item for it if and only if it is the tree `FieldOf` describes. |
| Parser.RepeatedComponentsExample | hl7.py:69-72 | `A^B~C^D` becomes one field of two repetitions, `[[A, B], [C, D]]`. |
| Parser.ParseFieldsPlain | hl7.py:63-79 | When no field is the encoding characters, a line's fields give one item each, in order, each the tree `FieldOf` describes for that field. |
| Parser.ParseLine | hl7.py:59-81 | A line becomes a segment whose items are all well-shaped fields. |
| Parser.ParseLineId | hl7.py:59-61 | The segment id is the text before the first `\|` and holds no `\|`. A line without `\|` is all id and gives an empty segment. Otherwise the line is the id, a `\|`, then the fields joined with `\|`. The id goes to the table and is not in the segment. |
| Parser.ParseLineFields | hl7.py:63-81 | A line without the encoding characters gives one item per field, each the tree `FieldOf` describes. An MSH line whose first field is the encoding characters starts with the two items `'\|'` and `'^~\&'`, and every later field sits one place further on. |
| Parser.Parse | hl7.py:54-84 | One segment and one table name per line of `splitlines`. Every segment is well shaped. |
| Parser.SplitLinesJoin | hl7.py:59 | Lines joined with `\n` come back from `splitlines` unchanged, if no line holds a line boundary and the last is not empty. |
| Parser.SplitLinesOfText | hl7.py:59 | On a well-formed text, `splitlines` splits at every `\n`. |
| Trees.SegmentLeafDepth | hl7.py:69-79 | Every leaf under a parsed segment lies one, two or three levels down: field, component, or component of a repetition. |
| Trees.PathsAt | hl7.py:382-388 | The enumerated leaves are exactly the leaves. `(p, v)` is listed if and only if following `p` reaches the string `v`. |
| Serializer.FieldEmits | hl7.py:362-366 | A field is written back as its own text followed by `\|`. Components are joined with `^`, repetitions with `~`. The list's last separator becomes its parent's. |
| Serializer.LineEmits | hl7.py:352-358 | A segment is written back as its line without the id, followed by `\n`. |
| Serializer.RoundTrip | hl7.py:338-366 | `_gen_hl7(hl7_to_list(text)) == text` for every well-formed text. |
| Mapping.GenDictBelow | hl7.py:382-388 | Below a non-empty reference, every leaf gets one entry, in depth-first order. Its key is the reference extended with `.n` for each 1-based position on the leaf's path. |
| Mapping.GenDictMessage | hl7.py:383-386 | With distinct, non-empty, dot-free names, merging the segments' dictionaries gives their entries one after another. Nothing is overwritten. |
| Mapping.ListToDictEntries | hl7.py:106-120 | With distinct, non-empty, dot-free names, `list_to_dict` yields every segment's entries in order, and all keys are distinct. |
| Mapping.EntriesLookup | hl7.py:383-388 | Segment `i`'s name plus a path is a key holding `v` if and only if that path lists the leaf `v` in segment `i`. |
| Mapping.DictAddressing | hl7.py:109-116 | `hl7['PID.3.1.5']` holds `v` if and only if following positions 3, 1, 5 in that segment reaches the string `v`. |
| Mapping.EntriesDistinct | hl7.py:383-385 | No two leaves of a message share a reference. |
| Mapping.GenDictMessageDefined | hl7.py:384 | With non-empty names, the message loop fails only when there are more segments than names. The failure is `IndexError`. |
| Mapping.ListToDictDefined | hl7.py:384 | With non-empty names, `list_to_dict` succeeds exactly when the table names every segment. Otherwise it raises `IndexError`. |
| Mapping.KeySplit | hl7.py:147-149 | Splitting a reference on `.` gives back the segment name and one numeral per level. So the key's depth is the path length. |
| Mapping.SuffixInjective | hl7.py:384 | Under one prefix, different paths give different references. |
| Strings.ParseNatToString | hl7.py:162-165 | `int(str(n)) == n`. The positions `dict_to_list` reads back from a key are the ones `_gen_dict` wrote. |
| Strings.NatToStringInjective | hl7.py:384 | Different positions give different numerals. |
| Strings.JoinSplit | hl7.py:60 | Joining the pieces of `s.split(c)` with `c` gives `s` back. |
| Strings.SplitJoin | hl7.py:71 | Pieces without `c`, joined with `c`, split back into the same pieces. |
| ArrayView.GenJson | hl7.py:391-400 | A string stays as it is. A list gets the filler `''` in front and keeps one element per child. |
| ArrayView.StripGenJson | hl7.py:282-286 | Dropping the fillers undoes adding them, for every tree. |
| ArrayView.JsonFiles | hl7.py:261-270 | With distinct names, the array view files each segment under its own name, in order. |
| ArrayView.JsonRoundTrip | hl7.py:273-287 | `json_to_list(list_to_json(elist)) == elist` when the names are distinct and every segment is a list. |
| ArrayView.JsonDefined | hl7.py:264-268 | `list_to_json` fails exactly when there are more segments than names. The failure is `IndexError`. |
| ArrayView.IndexGenJson | hl7.py:257-259 | Because of the fillers, 0-based indexing of the array view follows 1-based positions in the list view. |
| ArrayView.ArrayMatchesDict | hl7.py:255-259 | `json['PID'][7][5]` holds `v` if and only if `hl7['PID.7.5']` does. |
| Structure.StructureBelow | hl7.py:414-422 | Below a non-empty reference there is one line per leaf, in dictionary order, indented by 4 per level. |
| Structure.LinesRender | hl7.py:415-421 | Each line is `reference: value`, or `reference: *empty*` for an empty string, indented by the reference's depth. |
| Structure.ListingShowsEntries | hl7.py:403-422 | The listing is the dictionary view rendered line by line, one line per entry, in its order. |
| Structure.StructureMessageDefined | hl7.py:417-419 | With non-empty names, the listing loop fails only when there are more segments than names, with `IndexError`. |
| Structure.ListingDefined | hl7.py:290-296 | With non-empty names, `structure()` succeeds exactly when the table names every segment. Otherwise it raises `IndexError`. |
| Rebuild.FeedKeys | hl7.py:146-240 | After any run of keys, the segment dictionary's keys are the ones it had, then the new segments of the keys read, each once, in order of first appearance. |
| Rebuild.IdsExactly | hl7.py:146-152 | The segments in order of first appearance are all different, and they are exactly the segments of the dictionary's keys. |
| Rebuild.DictToListIds | hl7.py:146-247 | Whatever the dictionary, when `dict_to_list` succeeds it returns one list per distinct segment among the keys. The `i`-th list holds the items filed under the `i`-th segment to appear. |
| Rebuild.Append | hl7.py:158 | Appending to a segment fails with `KeyError` exactly when the segment has not been registered. |
| Rebuild.FeedPrev | hl7.py:239 | After any run of keys, `prev_segment` is the last key's segment. |
| Rebuild.StepLast | hl7.py:221-236 | The last key is an ordinary step followed by both end-of-dictionary flushes. |
| Rebuild.StepLeafPlain | hl7.py:154-158 | A field key after a field key appends the value to its segment. |
| Rebuild.StepLeafAfterComps | hl7.py:190-209 | A field key after a component closes the pending component list in the same segment, then appends the value. |
| Rebuild.StepLeafAfterCompsNewSegment | hl7.py:201-209 | A new segment's first field closes the pending component list into the previous segment. |
| Rebuild.SettleElsewhere | hl7.py:201-207 | At a segment change, the pending component list goes to the previous segment. |
| Rebuild.StepLeafAfterReps | hl7.py:192-199 | A field key after a repetition closes the pending repeated field, then appends the value. |
| Rebuild.StepCompsPlain | hl7.py:176-181 | A component key after a field key starts a component list and records its field position. |
| Rebuild.StepCompsAfterComps | hl7.py:160-166 | A component key with a greater field position closes the pending list and starts another. |
| Rebuild.StepCompsExtend | hl7.py:160-166 | A component key whose field position is not greater extends the pending list. Its segment must be the last one registered; when a new segment starts instead, see Counterexamples.StepCompsStale. |
| Rebuild.StepCompsAfterReps | hl7.py:211-219 | A component key after a repetition closes the repeated field and starts a component list. |
| Rebuild.StepRepsPlain | hl7.py:182-188 | A repetition key after a field key starts a repetition and records its position. |
| Rebuild.StepRepsAfterComps | hl7.py:182-188 | A repetition key after a component closes the pending component list and starts a repetition. |
| Rebuild.StepRepsExtend | hl7.py:168-174 | A repetition key whose repetition position is not greater extends the pending repetition. |
| Rebuild.StepRepsNext | hl7.py:168-174 | A repetition key with a greater repetition position closes the pending repetition and starts the next. |
| Rebuild.SettleComps | hl7.py:230-236 | At the end, a pending component list of the current segment is attached to it. |
| Rebuild.SettleReps | hl7.py:223-228 | At the end, a pending repeated field is attached to the current key's segment. |
| RowsBack.DictRoundTrip | hl7.py:123-247 | `dict_to_list(list_to_dict(elist)) == elist` for every message in `Rebuildable` shape with distinct, non-empty, dot-free names. |
| Repair.FixedRoundTrip | hl7.py:123-247 | The repaired `dict_to_list` inverts `list_to_dict` for every message of non-empty, well-shaped segments with distinct, non-empty, dot-free names. |
| Repair.FixAgrees | hl7.py:123-247 | On every `Rebuildable` message with distinct, non-empty, dot-free names (the messages the loop as written rebuilds), the repaired loop gives the same result. |
| Counterexamples.ComponentsCarried | hl7.py:160-166 | A segment ending with a component list, followed by one starting with a component list: both lists merge into one, filed under the second segment. |
| Counterexamples.StepCompsStale | hl7.py:160-166 | The field-position test compares positions across segments, so a new segment's component list extends the old one. |
| Counterexamples.RepetitionsCarried | hl7.py:192-199 | A segment ending with a repeated field loses it to the next segment. |
| Counterexamples.RepetitionsMerged | hl7.py:168-174 | Two adjacent repeated fields merge. The second field's repetitions run into the first field's last repetition. |
| Counterexamples.LoneComponentMisfiled | hl7.py:230-233 | A last segment whose only field is a one-component list loses that list to the segment before it. |

## Left out

- `export`, `comparison` and the module's test code. They do file I/O and printing, and they are not part of the conversions.
- The message object's mutable state. Each conversion is a pure function of the list (or dictionary, or array view) and the table. `_segments` grows with every call to `hl7_to_list` on the same object; this model starts each parse from an empty table.
- `message.strip()` in `_gen_hl7`: its result is discarded, so it has no effect.
- `int()`: modelled for non-empty ASCII decimal numerals only. Signs, surrounding whitespace, `_` separators and non-ASCII digits, which Python also accepts, are treated as `ValueError`.
- HL7 escape sequences and `&` subcomponents: the converter does not interpret them, and neither does the model.
- Strings are sequences of code points. Byte encodings and `open(...)` are not modelled.
- Serializer.RoundTrip: holds for texts in which each line has a `|`, no segment id has `_`, no line boundary other than `\n` appears, and the text does not end with `\n`. Other texts can lose information under the converter as written, for example a trailing newline or `\r\n` line ends.
- RowsBack.DictRoundTrip: stated for the `Rebuildable` shapes only. The other shapes are the findings below.
- Where the code and its description disagree, the model follows the code. `MSH.1` is `|` and `MSH.2` is `^~\&`, because `hl7_to_list` inserts a `|` item before the encoding characters. `_gen_hl7` on a list nested four or more levels deep raises `IndexError` (`separators[5]`); it does not reuse `~`.
- Segments with no fields (a line without `|`) have no entries in the dictionary, so no reading of the dictionary can restore them. Repair.FixedRoundTrip therefore requires at least one field per segment.

## Findings

| source | as written | input that shows it | evidently intended | confidence | as-written member | corrected member |
|---|---|---|---|---|---|---|
| hl7.py:160-166 | A component key continues the pending list whenever its field position is not greater than the previous one, even in a new segment. | `x` = `[[a]]`, `y` = `[[b], c]`: `x.1.1`, `y.1.1`, `y.2` come back as `x` = `[]`, `y` = `[[a, b], c]` | a new field, in any segment, starts a new component list | high (proved; not executed) | Counterexamples.ComponentsCarried | Repair.FixedRoundTrip |
| hl7.py:192-199 | The pending repeated field is attached to the segment of the key that closes it. | `x` = `[[[a], [b]]]`, `y` = `[c]`: `x` comes back empty and `y` gets the repeated field | the repeated field stays with its own segment | high (proved; not executed) | Counterexamples.RepetitionsCarried | Repair.FixedRoundTrip |
| hl7.py:168-174 | Consecutive repetition keys are compared by repetition position only, not by field. | `x` = `[[[a], [b]], [[c], [d]]]` comes back as `[[[a], [b, c, d]]]` | a new field starts a new repeated field | high (proved; not executed) | Counterexamples.RepetitionsMerged | Repair.FixedRoundTrip |
| hl7.py:230-233 | At the end of the dictionary, a pending list goes to the previous key's segment when the last key's segment differs. | `x` = `[a]`, `y` = `[[b]]`: comes back as `x` = `[a, [b]]`, `y` = `[]` | the list goes to the segment it came from | high (proved; not executed) | Counterexamples.LoneComponentMisfiled | Repair.FixedRoundTrip |
