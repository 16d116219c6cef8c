/**
 * Merging a fresh scrape of the roster into the previously saved rows.
 * A legislator is identified by name. The result follows the scrape row by
 * row: a name already on file keeps its saved row with the bloc, the image
 * and the extraction date refreshed; a new name is taken as scraped. Saved
 * rows whose name is not in the scrape are not carried over.
 */
module Merge {
  import opened Wrappers
  import opened Records

  /** The identity of a legislator: the name column, which may be `None`. */
  type Key = Option<string>

  /**
   * The lookup table of saved rows by name, filled left to right, so that a
   * later row with a name replaces an earlier one.
   */
  function IndexByName(existing: seq<Legislator>): (index: map<Key, Legislator>)
    ensures forall k :: k in index ==> index[k].name == k
  {
    if existing == [] then map[]
    else
      var last := existing[|existing| - 1];
      IndexByName(existing[..|existing| - 1])[last.name := last]
  }

  /** The saved row with the three scraped columns written over it. */
  function Refresh(stored: Legislator, scraped: Legislator): (merged: Legislator)
    ensures IsRefreshOf(merged, stored, scraped)
  {
    stored.(bloc := scraped.bloc, imageUrl := scraped.imageUrl, extractionDate := scraped.extractionDate)
  }

  /** The merged row for one scraped row: a refresh of the saved row of its name, or the scraped row itself. */
  function MergeRow(index: map<Key, Legislator>, scraped: Legislator): (merged: Legislator)
    ensures scraped.name in index ==> IsRefreshOf(merged, index[scraped.name], scraped)
    ensures scraped.name !in index ==> merged == scraped
  {
    if scraped.name in index then Refresh(index[scraped.name], scraped) else scraped
  }

  /** The merged rows for a scrape, one per scraped row, in scrape order. */
  function MergeRows(index: map<Key, Legislator>, scraped: seq<Legislator>): (merged: seq<Legislator>)
    ensures |merged| == |scraped|
  {
    if scraped == [] then []
    else MergeRows(index, scraped[..|scraped| - 1]) + [MergeRow(index, scraped[|scraped| - 1])]
  }

  /** How many scraped rows carry a name already on file (the `actualizados` counter). */
  function UpdatedCount(index: map<Key, Legislator>, scraped: seq<Legislator>): (n: nat)
    ensures n <= |scraped|
  {
    if scraped == [] then 0
    else UpdatedCount(index, scraped[..|scraped| - 1]) + (if scraped[|scraped| - 1].name in index then 1 else 0)
  }

  /** How many scraped rows carry a name not on file (the `nuevos_agregados` counter). */
  function AddedCount(index: map<Key, Legislator>, scraped: seq<Legislator>): (n: nat)
    ensures n + UpdatedCount(index, scraped) == |scraped|
  {
    if scraped == [] then 0
    else AddedCount(index, scraped[..|scraped| - 1]) + (if scraped[|scraped| - 1].name in index then 0 else 1)
  }

  /** The merge of `scraped` into `existing`: row by row, the merged row of each scraped row. */
  function Merged(existing: seq<Legislator>, scraped: seq<Legislator>): (merged: seq<Legislator>)
    ensures |merged| == |scraped|
    ensures forall i :: 0 <= i < |scraped| ==> merged[i] == MergeRow(IndexByName(existing), scraped[i])
  {
    var index := IndexByName(existing);
    forall i | 0 <= i < |scraped| ensures MergeRows(index, scraped)[i] == MergeRow(index, scraped[i]) {
      MergeRowsAt(index, scraped, i);
    }
    MergeRows(index, scraped)
  }

  /**
   * `combinar_legisladores`: builds the lookup table, then walks the scrape,
   * appending the merged row and counting updated and added rows. The two
   * counters, which the program only prints, are returned.
   */
  method Combine(existing: seq<Legislator>, scraped: seq<Legislator>)
    returns (merged: seq<Legislator>, updated: nat, added: nat)
    ensures merged == Merged(existing, scraped)
    ensures updated == UpdatedCount(IndexByName(existing), scraped)
    ensures added == AddedCount(IndexByName(existing), scraped)
    ensures |merged| == |scraped| && updated + added == |scraped|
  {
    var index: map<Key, Legislator> := map[];
    for i := 0 to |existing|
      invariant index == IndexByName(existing[..i])
    {
      assert existing[..i + 1][..i] == existing[..i];
      index := index[existing[i].name := existing[i]];
    }
    assert existing[..|existing|] == existing;

    merged, updated, added := [], 0, 0;
    for j := 0 to |scraped|
      invariant merged == MergeRows(index, scraped[..j])
      invariant updated == UpdatedCount(index, scraped[..j])
      invariant added == AddedCount(index, scraped[..j])
    {
      assert scraped[..j + 1][..j] == scraped[..j];
      var row := scraped[j];
      if row.name in index {
        // a copy of the saved row, with three columns written over
        var legislator := index[row.name];
        legislator := legislator.(bloc := row.bloc);
        legislator := legislator.(imageUrl := row.imageUrl);
        legislator := legislator.(extractionDate := row.extractionDate);
        merged := merged + [legislator];
        updated := updated + 1;
      } else {
        merged := merged + [row];
        added := added + 1;
      }
    }
    assert scraped[..|scraped|] == scraped;
  }

  // ----- The lookup table -----

  /** A name is in the table exactly when some saved row carries it. */
  lemma {:induction false} IndexKeys(existing: seq<Legislator>, k: Key)
    ensures k in IndexByName(existing) <==> exists j :: 0 <= j < |existing| && existing[j].name == k
  {
    if existing != [] {
      var prefix := existing[..|existing| - 1];
      IndexKeys(prefix, k);
      if exists j :: 0 <= j < |prefix| && prefix[j].name == k {
        var j :| 0 <= j < |prefix| && prefix[j].name == k;
        assert existing[j].name == k;
      }
    }
  }

  /** When several saved rows share a name, the table holds the last of them. */
  lemma {:induction false} IndexIsLast(existing: seq<Legislator>, j: nat)
    requires j < |existing|
    requires forall j' :: j < j' < |existing| ==> existing[j'].name != existing[j].name
    ensures existing[j].name in IndexByName(existing)
    ensures IndexByName(existing)[existing[j].name] == existing[j]
  {
    if j < |existing| - 1 {
      var prefix := existing[..|existing| - 1];
      assert prefix[j] == existing[j];
      IndexIsLast(prefix, j);
    }
  }

  // ----- The merged rows -----

  lemma {:induction false} MergeRowsAt(index: map<Key, Legislator>, scraped: seq<Legislator>, i: nat)
    requires i < |scraped|
    ensures MergeRows(index, scraped)[i] == MergeRow(index, scraped[i])
  {
    if i < |scraped| - 1 {
      var prefix := scraped[..|scraped| - 1];
      MergeRowsAt(index, prefix, i);
    }
  }

  /** The i-th merged row has the name of the i-th scraped row. */
  lemma KeepsOrder(existing: seq<Legislator>, scraped: seq<Legislator>)
    ensures |Merged(existing, scraped)| == |scraped|
    ensures forall i :: 0 <= i < |scraped| ==> Merged(existing, scraped)[i].name == scraped[i].name
  {
    forall i | 0 <= i < |scraped| ensures Merged(existing, scraped)[i].name == scraped[i].name {
      MergeRowsAt(IndexByName(existing), scraped, i);
    }
  }

  /**
   * A scraped row whose name is on file gives the last saved row of that
   * name with only the bloc, the image and the extraction date refreshed.
   */
  lemma MatchedRow(existing: seq<Legislator>, scraped: seq<Legislator>, i: nat, j: nat)
    requires i < |scraped| && j < |existing|
    requires existing[j].name == scraped[i].name
    requires forall j' :: j < j' < |existing| ==> existing[j'].name != scraped[i].name
    ensures IsRefreshOf(Merged(existing, scraped)[i], existing[j], scraped[i])
  {
    MergeRowsAt(IndexByName(existing), scraped, i);
    IndexIsLast(existing, j);
  }

  /** A scraped row whose name is not on file is taken as it is. */
  lemma UnmatchedRow(existing: seq<Legislator>, scraped: seq<Legislator>, i: nat)
    requires i < |scraped|
    requires forall j :: 0 <= j < |existing| ==> existing[j].name != scraped[i].name
    ensures Merged(existing, scraped)[i] == scraped[i]
  {
    MergeRowsAt(IndexByName(existing), scraped, i);
    IndexKeys(existing, scraped[i].name);
  }

  /** A saved row whose name is not in the scrape is not carried over. */
  lemma DroppedRow(existing: seq<Legislator>, scraped: seq<Legislator>, j: nat)
    requires j < |existing|
    requires forall i :: 0 <= i < |scraped| ==> scraped[i].name != existing[j].name
    ensures forall i :: 0 <= i < |Merged(existing, scraped)| ==> Merged(existing, scraped)[i].name != existing[j].name
    ensures existing[j] !in Merged(existing, scraped)
  {
    KeepsOrder(existing, scraped);
  }

  // ----- The counters -----

  lemma {:induction false} CountAllKnown(index: map<Key, Legislator>, scraped: seq<Legislator>)
    requires forall i :: 0 <= i < |scraped| ==> scraped[i].name in index
    ensures UpdatedCount(index, scraped) == |scraped| && AddedCount(index, scraped) == 0
  {
    if scraped != [] {
      CountAllKnown(index, scraped[..|scraped| - 1]);
    }
  }

  lemma {:induction false} CountNoneKnown(index: map<Key, Legislator>, scraped: seq<Legislator>)
    requires forall i :: 0 <= i < |scraped| ==> scraped[i].name !in index
    ensures UpdatedCount(index, scraped) == 0 && AddedCount(index, scraped) == |scraped|
    ensures MergeRows(index, scraped) == scraped
  {
    if scraped != [] {
      var prefix, last := scraped[..|scraped| - 1], scraped[|scraped| - 1];
      CountNoneKnown(index, prefix);
      assert MergeRow(index, last) == last;
      assert MergeRows(index, scraped) == prefix + [last];
      assert scraped == prefix + [last];
    }
  }

  /** With nothing on file every scraped row is added as it is. */
  lemma FirstRun(scraped: seq<Legislator>)
    ensures Merged([], scraped) == scraped
    ensures UpdatedCount(IndexByName([]), scraped) == 0
    ensures AddedCount(IndexByName([]), scraped) == |scraped|
  {
    CountNoneKnown(IndexByName([]), scraped);
  }

  /** No two rows share a name. */
  predicate DistinctNames(rows: seq<Legislator>) {
    forall i, j :: 0 <= i < j < |rows| ==> rows[i].name != rows[j].name
  }

  /** The merged rows repeat no name exactly when the scrape repeats none. */
  lemma MergedDistinct(existing: seq<Legislator>, scraped: seq<Legislator>)
    ensures DistinctNames(Merged(existing, scraped)) <==> DistinctNames(scraped)
  {
    KeepsOrder(existing, scraped);
  }

  /**
   * Merging the same scrape again into the rows just saved changes nothing
   * and counts every row as updated, provided the scrape repeats no name.
   */
  lemma Rerun(existing: seq<Legislator>, scraped: seq<Legislator>)
    requires DistinctNames(scraped)
    ensures Merged(Merged(existing, scraped), scraped) == Merged(existing, scraped)
    ensures UpdatedCount(IndexByName(Merged(existing, scraped)), scraped) == |scraped|
  {
    var saved := Merged(existing, scraped);
    var index := IndexByName(existing);
    var again := IndexByName(saved);
    KeepsOrder(existing, scraped);
    forall i | 0 <= i < |scraped|
      ensures scraped[i].name in again && again[scraped[i].name] == saved[i]
      ensures Merged(saved, scraped)[i] == saved[i]
    {
      IndexIsLast(saved, i);
      MergeRowsAt(again, scraped, i);
      MergeRowsAt(index, scraped, i);
    }
    CountAllKnown(again, scraped);
  }
}
