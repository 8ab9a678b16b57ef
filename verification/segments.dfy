/** The segment disambiguator (`_sort_segments`): every later occurrence of
    a segment id gets a `_k` suffix so that ids can serve as dictionary keys
    without colliding. */
module Segments {
  import opened Strings

  /** The name the occurrence of `id` that follows `k` earlier ones receives:
      the first keeps its id, the k-th repeat becomes `id_k`. */
  function Renamed(id: string, k: nat): string {
    if k == 0 then id else id + "_" + NatToString(k)
  }

  /** The name given to the next occurrence of `id`: unchanged on first
      sight, otherwise suffixed with the incremented repeat counter. */
  function NameFor(seen: map<string, nat>, id: string): string {
    if id in seen then id + "_" + NatToString(seen[id] + 1) else id
  }

  /** The counter update for that occurrence: 0 on first sight, else +1. */
  function Bump(seen: map<string, nat>, id: string): map<string, nat> {
    if id in seen then seen[id := seen[id] + 1] else seen[id := 0]
  }

  /** The fold over the raw ids, `seen` mapping each id met so far to the
      number of its repeats already renamed. */
  function SortFrom(ids: seq<string>, seen: map<string, nat>): (table: seq<string>)
    ensures |table| == |ids|
  {
    if ids == [] then []
    else [NameFor(seen, ids[0])] + SortFrom(ids[1..], Bump(seen, ids[0]))
  }

  /** The segment table built from the raw ids in line order. */
  function Disambiguate(ids: seq<string>): seq<string>
  {
    SortFrom(ids, map[])
  }

  /** Number of occurrences of `id` in `ids`. */
  function Occurrences(ids: seq<string>, id: string): nat
  {
    if ids == [] then 0
    else Occurrences(ids[..|ids| - 1], id) + (if ids[|ids| - 1] == id then 1 else 0)
  }

  /** `seen` is the fold's state after the ids in `prefix`. */
  ghost predicate Tracks(seen: map<string, nat>, prefix: seq<string>) {
    forall id :: (id in seen ==> seen[id] + 1 == Occurrences(prefix, id)) &&
                 (id !in seen ==> Occurrences(prefix, id) == 0)
  }

  lemma TracksBump(seen: map<string, nat>, prefix: seq<string>, id: string)
    requires Tracks(seen, prefix)
    ensures Tracks(Bump(seen, id), prefix + [id])
    ensures NameFor(seen, id) == Renamed(id, Occurrences(prefix, id))
  {
    assert (prefix + [id])[..|prefix|] == prefix;
  }

  lemma {:induction false} SortFromRenames(ids: seq<string>, k: nat, seen: map<string, nat>)
    requires k <= |ids|
    requires Tracks(seen, ids[..k])
    ensures forall i :: k <= i < |ids| ==>
      SortFrom(ids[k..], seen)[i - k] == Renamed(ids[i], Occurrences(ids[..i], ids[i]))
    decreases |ids| - k
  {
    if k < |ids| {
      var seen' := Bump(seen, ids[k]);
      TracksBump(seen, ids[..k], ids[k]);
      assert ids[..k] + [ids[k]] == ids[..k + 1];
      SortFromRenames(ids, k + 1, seen');
      assert ids[k..][1..] == ids[k + 1..];
      var t := SortFrom(ids[k..], seen);
      var u := SortFrom(ids[k + 1..], seen');
      assert t == [NameFor(seen, ids[k])] + u;
      forall i | k <= i < |ids|
        ensures t[i - k] == Renamed(ids[i], Occurrences(ids[..i], ids[i]))
      {
        if i > k {
          assert t[i - k] == u[i - (k + 1)];
        }
      }
    }
  }

  /** The table has one name per raw id, in order; the name of an id with
      `k` earlier occurrences is `Renamed(id, k)`. */
  lemma DisambiguateRenames(ids: seq<string>)
    ensures |Disambiguate(ids)| == |ids|
    ensures forall i :: 0 <= i < |ids| ==>
      Disambiguate(ids)[i] == Renamed(ids[i], Occurrences(ids[..i], ids[i]))
  {
    assert Tracks(map[], ids[..0]);
    SortFromRenames(ids, 0, map[]);
    assert ids[0..] == ids;
  }

  /** Cutting a name at its first `_` recovers the raw id, provided raw ids
      contain no `_`. */
  lemma StripRenamed(id: string, k: nat)
    requires '_' !in id
    ensures Split(Renamed(id, k), '_')[0] == id
  {
    if k > 0 {
      NumeralHasNoSeparator(k, '_');
      IndexOfAfterPiece(id, NatToString(k), '_');
      assert (id + "_" + NatToString(k))[..|id|] == id;
    }
  }

  lemma RenamedInjective(id: string, j: nat, k: nat)
    requires Renamed(id, j) == Renamed(id, k)
    ensures j == k
  {
    if j > 0 && k > 0 {
      assert NatToString(j) == Renamed(id, j)[|id| + 1..];
      assert NatToString(k) == Renamed(id, k)[|id| + 1..];
      NatToStringInjective(j, k);
    }
  }

  /** When no raw id contains `_`, the table's names are pairwise distinct
      and each still starts with its raw id. */
  lemma {:induction false} DisambiguateDistinct(ids: seq<string>)
    requires forall i :: 0 <= i < |ids| ==> '_' !in ids[i]
    ensures forall i, j :: 0 <= i < j < |ids| ==> Disambiguate(ids)[i] != Disambiguate(ids)[j]
    ensures forall i :: 0 <= i < |ids| ==> Split(Disambiguate(ids)[i], '_')[0] == ids[i]
  {
    var t := Disambiguate(ids);
    DisambiguateRenames(ids);
    forall i | 0 <= i < |ids|
      ensures Split(t[i], '_')[0] == ids[i]
    {
      StripRenamed(ids[i], Occurrences(ids[..i], ids[i]));
    }
    assert forall i :: 0 <= i < |ids| ==> Split(t[i], '_')[0] == ids[i];
    forall i, j | 0 <= i < j < |ids|
      ensures t[i] != t[j]
    {
      if t[i] == t[j] {
        RepeatCounted(ids, i, j);
        RenamedInjective(ids[i], Occurrences(ids[..i], ids[i]), Occurrences(ids[..j], ids[i]));
      }
    }
  }

  /** A later occurrence of the same id has seen strictly more repeats. */
  lemma RepeatCounted(ids: seq<string>, i: nat, j: nat)
    requires i < j <= |ids|
    ensures Occurrences(ids[..j], ids[i]) > Occurrences(ids[..i], ids[i])
    decreases j
  {
    if j == i + 1 {
      assert ids[..j][..i] == ids[..i];
    } else {
      RepeatCounted(ids, i, j - 1);
      assert ids[..j][..j - 1] == ids[..j - 1];
    }
  }

  /** Renaming keeps ids non-empty and introduces no `.`. */
  lemma DisambiguateKeepsIdsPlain(ids: seq<string>)
    requires forall i :: 0 <= i < |ids| ==> ids[i] != "" && '.' !in ids[i]
    ensures forall i :: 0 <= i < |ids| ==>
      Disambiguate(ids)[i] != "" && '.' !in Disambiguate(ids)[i]
  {
    DisambiguateRenames(ids);
    forall i | 0 <= i < |ids|
      ensures '.' !in Disambiguate(ids)[i]
    {
      NumeralHasNoSeparator(Occurrences(ids[..i], ids[i]), '.');
    }
  }
}
