/**
 * The retention store: keep the `maxDatasets` most recently uploaded
 * datasets and delete the rest, with a preview of what a cleanup would
 * delete and a report of the store's state.
 */
module HistoryUtils {
  import opened Common
  import opened Models

  /** The store's order: newest upload first (`order_by('-upload_date')`). */
  predicate NewestFirst(ds: seq<Dataset>) {
    forall i, j :: 0 <= i < j < |ds| ==> ds[i].uploadDate >= ds[j].uploadDate
  }

  /** Primary keys are unique. */
  predicate UniqueIds(ds: seq<Dataset>) {
    forall i, j :: 0 <= i < j < |ds| ==> ds[i].id != ds[j].id
  }

  /** The datasets a cleanup deletes: those after the `max` newest. */
  function ToDelete(ds: seq<Dataset>, max: nat): (r: seq<Dataset>)
    ensures |r| == if |ds| > max then |ds| - max else 0
  {
    if |ds| > max then ds[max..] else []
  }

  /** The datasets a cleanup keeps. */
  function Survivors(ds: seq<Dataset>, max: nat): (r: seq<Dataset>)
    ensures |r| == Min(|ds|, max)
  {
    if |ds| > max then ds[..max] else ds
  }

  /** The store without the dataset whose key is `id`. */
  function Without(ds: seq<Dataset>, id: nat): (r: seq<Dataset>)
    ensures |r| <= |ds|
  {
    if ds == [] then []
    else (if ds[0].id == id then [] else [ds[0]]) + Without(ds[1..], id)
  }

  /** Whether some stored dataset has key `id`. */
  predicate Stored(ds: seq<Dataset>, id: nat) {
    exists i :: 0 <= i < |ds| && ds[i].id == id
  }

  /** Deleting a stored dataset by key removes exactly that entry. */
  lemma {:induction false} WithoutAt(ds: seq<Dataset>, i: nat)
    requires UniqueIds(ds) && i < |ds|
    ensures Without(ds, ds[i].id) == ds[..i] + ds[i + 1..]
  {
    var t := ds[1..];
    assert forall k :: 0 <= k < |t| ==> t[k] == ds[k + 1];
    if i == 0 {
      assert Without(ds, ds[0].id) == Without(t, ds[0].id);
      WithoutAbsent(t, ds[0].id);
    } else {
      assert Without(ds, ds[i].id) == [ds[0]] + Without(t, ds[i].id);
      assert UniqueIds(t) by {
        forall a, b | 0 <= a < b < |t| ensures t[a].id != t[b].id {
          assert t[a] == ds[a + 1] && t[b] == ds[b + 1];
        }
      }
      assert t[i - 1] == ds[i];
      WithoutAt(t, i - 1);
      assert ds[..i] + ds[i + 1..] == [ds[0]] + (t[..i - 1] + t[i..]);
    }
  }

  /** Deleting a key nobody has changes nothing. */
  lemma {:induction false} WithoutAbsent(ds: seq<Dataset>, id: nat)
    requires forall k :: 0 <= k < |ds| ==> ds[k].id != id
    ensures Without(ds, id) == ds
  {
    if ds != [] {
      var t := ds[1..];
      assert forall k :: 0 <= k < |t| ==> t[k] == ds[k + 1];
      assert Without(ds, id) == [ds[0]] + Without(t, id);
      WithoutAbsent(t, id);
    }
  }

  /** A dataset removed from the middle leaves an ordered store with unique keys. */
  lemma SpliceValid(ds: seq<Dataset>, m: nat, n: nat)
    requires NewestFirst(ds) && UniqueIds(ds) && m <= n <= |ds|
    ensures NewestFirst(ds[..m] + ds[n..]) && UniqueIds(ds[..m] + ds[n..])
  {
    var r := ds[..m] + ds[n..];
    assert forall a :: 0 <= a < |r| ==> r[a] == if a < m then ds[a] else ds[a - m + n];
  }

  /** The store with the entries `m..m+i` gone, seen around position `m`. */
  lemma SpliceStep(ds: seq<Dataset>, m: nat, i: nat)
    requires m + i < |ds|
    ensures var r := ds[..m] + ds[m + i..];
      && m < |r| && r[m] == ds[m + i] && r[..m] == ds[..m] && r[m + 1..] == ds[m + i + 1..]
      && r[..m] + r[m + 1..] == ds[..m] + ds[m + i + 1..]
  {
  }

  /** Deleting by key keeps the store ordered with unique keys. */
  lemma WithoutValid(ds: seq<Dataset>, id: nat)
    requires NewestFirst(ds) && UniqueIds(ds)
    ensures NewestFirst(Without(ds, id)) && UniqueIds(Without(ds, id))
  {
    if Stored(ds, id) {
      var i :| 0 <= i < |ds| && ds[i].id == id;
      WithoutAt(ds, i);
      SpliceValid(ds, i, i + 1);
    } else {
      WithoutAbsent(ds, id);
    }
  }

  /** The fields `get_datasets_for_cleanup_preview` lists for one dataset. */
  datatype PreviewEntry = PreviewEntry(id: nat, name: string, uploadDate: int, totalRows: Option<int>, fileName: string)

  function PreviewOf(d: Dataset): PreviewEntry {
    PreviewEntry(d.id, d.name, d.uploadDate, d.totalRows, d.fileName)
  }

  /** What `cleanup_all_old_datasets` returns. */
  datatype CleanupResult = CleanupResult(deletedCount: nat, totalBefore: nat, totalAfter: nat)

  /** What `trigger_cleanup_if_needed` returns. */
  datatype TriggerResult = Triggered(cleanup: CleanupResult) | NotTriggered(currentCount: nat, maxAllowed: nat)

  /** The id, name and upload date reported for the oldest and newest dataset. */
  datatype Landmark = Landmark(id: nat, name: string, uploadDate: int)

  /** What `get_dataset_history_info` returns. */
  datatype HistoryInfo = HistoryInfo(
    totalDatasets: nat, processedDatasets: nat, maxDatasetsAllowed: nat, datasetsUntilCleanup: nat,
    oldestDataset: Option<Landmark>, newestDataset: Option<Landmark>)

  /** The number of processed datasets (`filter(is_processed=True).count()`). */
  function ProcessedCount(ds: seq<Dataset>): (n: nat)
    ensures n <= |ds|
    ensures n == |ds| <==> forall i :: 0 <= i < |ds| ==> ds[i].isProcessed
    ensures n == 0 <==> forall i :: 0 <= i < |ds| ==> !ds[i].isProcessed
  {
    if ds == [] then 0
    else
      assert forall i :: 1 <= i < |ds| ==> ds[1..][i - 1] == ds[i];
      (if ds[0].isProcessed then 1 else 0) + ProcessedCount(ds[1..])
  }

  function LandmarkOf(d: Dataset): Landmark {
    Landmark(d.id, d.name, d.uploadDate)
  }

  /** The dataset table, with the retention limit `MAX_DATASETS` as a constructor parameter. */
  class DatasetStore {
    var datasets: seq<Dataset>
    const maxDatasets: nat

    ghost predicate Valid()
      reads this
    {
      NewestFirst(datasets) && UniqueIds(datasets)
    }

    constructor(max: nat)
      ensures Valid() && datasets == [] && maxDatasets == max
    {
      datasets := [];
      maxDatasets := max;
    }

    /** A newly uploaded dataset, stamped with the current time, becomes the newest. */
    method Upload(d: Dataset)
      requires Valid()
      requires forall k :: 0 <= k < |datasets| ==> datasets[k].id != d.id && datasets[k].uploadDate <= d.uploadDate
      modifies this
      ensures Valid() && datasets == [d] + old(datasets)
    {
      datasets := [d] + datasets;
    }

    /** `dataset.delete()`: the row with key `id` is removed, and nothing else. */
    method Delete(id: nat)
      requires Valid()
      modifies this
      ensures Valid() && datasets == Without(old(datasets), id)
    {
      WithoutValid(datasets, id);
      datasets := Without(datasets, id);
    }

    /** One step of the deletion loop: the next dataset past the kept ones goes. */
    method DeleteNext(ghost before: seq<Dataset>, ghost i: nat, id: nat)
      requires Valid() && maxDatasets + i < |before| && id == before[maxDatasets + i].id
      requires datasets == before[..maxDatasets] + before[maxDatasets + i..]
      modifies this
      ensures Valid() && datasets == before[..maxDatasets] + before[maxDatasets + i + 1..]
    {
      SpliceStep(before, maxDatasets, i);
      WithoutAt(datasets, maxDatasets);
      Delete(id);
    }

    /** The loop over `datasets_to_delete`, deleting each one and counting it. */
    method DeleteAll(toDelete: seq<Dataset>) returns (deletedCount: nat)
      requires Valid() && |datasets| > maxDatasets && toDelete == datasets[maxDatasets..]
      modifies this
      ensures Valid() && datasets == old(datasets)[..maxDatasets]
      ensures deletedCount == |toDelete|
    {
      ghost var before := datasets;
      deletedCount := 0;
      var i := 0;
      while i < |toDelete|
        invariant 0 <= i <= |toDelete|
        invariant datasets == before[..maxDatasets] + before[maxDatasets + i..]
        invariant Valid()
        invariant deletedCount == i
      {
        DeleteNext(before, i, toDelete[i].id);
        deletedCount := deletedCount + 1;
        i := i + 1;
      }
      assert before[maxDatasets + i..] == [];
    }

    /** `cleanup_all_old_datasets`: keep the `maxDatasets` newest, report the counts. */
    method CleanupAllOldDatasets() returns (r: CleanupResult)
      requires Valid()
      modifies this
      ensures Valid() && datasets == Survivors(old(datasets), maxDatasets)
      ensures r == CleanupResult(|ToDelete(old(datasets), maxDatasets)|, |old(datasets)|, |datasets|)
    {
      var totalBefore := |datasets|;
      if |datasets| > maxDatasets {
        var toDelete := datasets[maxDatasets..];
        var deletedCount := DeleteAll(toDelete);
        r := CleanupResult(deletedCount, totalBefore, |datasets|);
      } else {
        r := CleanupResult(0, totalBefore, totalBefore);
      }
    }

    /** `cleanup_old_datasets(user)`: the same global rule; the user is ignored. Returns the number deleted. */
    method CleanupOldDatasets(user: int) returns (deletedCount: nat)
      requires Valid()
      modifies this
      ensures Valid() && datasets == Survivors(old(datasets), maxDatasets)
      ensures deletedCount == |ToDelete(old(datasets), maxDatasets)|
    {
      if |datasets| > maxDatasets {
        var toDelete := datasets[maxDatasets..];
        deletedCount := DeleteAll(toDelete);
      } else {
        deletedCount := 0;
      }
    }

    /** `trigger_cleanup_if_needed`: clean up only when the store holds more than `maxDatasets`. */
    method TriggerCleanupIfNeeded() returns (r: TriggerResult)
      requires Valid()
      modifies this
      ensures Valid() && datasets == Survivors(old(datasets), maxDatasets)
      ensures r.Triggered? <==> |old(datasets)| > maxDatasets
      ensures r.Triggered? ==> r.cleanup.deletedCount == |old(datasets)| - maxDatasets && r.cleanup.totalAfter == maxDatasets
      ensures r.NotTriggered? ==> r == NotTriggered(|old(datasets)|, maxDatasets) && datasets == old(datasets)
    {
      var currentCount := |datasets|;
      if currentCount > maxDatasets {
        var c := CleanupAllOldDatasets();
        r := Triggered(c);
      } else {
        r := NotTriggered(currentCount, maxDatasets);
      }
    }

    /** `get_datasets_for_cleanup_preview`: the datasets a cleanup would delete, newest first. */
    method CleanupPreview() returns (preview: seq<PreviewEntry>)
      ensures |preview| == |ToDelete(datasets, maxDatasets)|
      ensures forall k :: 0 <= k < |preview| ==> preview[k] == PreviewOf(ToDelete(datasets, maxDatasets)[k])
    {
      preview := [];
      if |datasets| > maxDatasets {
        var toDelete := datasets[maxDatasets..];
        var i := 0;
        while i < |toDelete|
          invariant 0 <= i <= |toDelete|
          invariant |preview| == i
          invariant forall k :: 0 <= k < i ==> preview[k] == PreviewOf(toDelete[k])
        {
          preview := preview + [PreviewOf(toDelete[i])];
          i := i + 1;
        }
      }
    }

    /** `get_dataset_history_info`. */
    function Info(): (r: HistoryInfo)
      reads this
      ensures r.totalDatasets == |datasets| && r.maxDatasetsAllowed == maxDatasets
      ensures r.processedDatasets == ProcessedCount(datasets) <= r.totalDatasets
      ensures r.datasetsUntilCleanup == if maxDatasets > |datasets| then maxDatasets - |datasets| else 0
      ensures r.newestDataset.None? <==> datasets == []
      ensures r.oldestDataset.None? <==> datasets == []
      ensures datasets != [] ==>
        r.oldestDataset == Some(LandmarkOf(datasets[|datasets| - 1])) && r.newestDataset == Some(LandmarkOf(datasets[0]))
      ensures Valid() && datasets != [] ==>
        forall k :: 0 <= k < |datasets| ==>
          r.oldestDataset.value.uploadDate <= datasets[k].uploadDate <= r.newestDataset.value.uploadDate
    {
      HistoryInfo(
        |datasets|, ProcessedCount(datasets), maxDatasets, Max(0, maxDatasets - |datasets|),
        if datasets == [] then None else Some(LandmarkOf(datasets[|datasets| - 1])),
        if datasets == [] then None else Some(LandmarkOf(datasets[0])))
    }
  }

  // ---------------------------------------------------------------------
  // What a cleanup keeps and deletes

  /**
   * A cleanup splits the store into the survivors and the deleted, and no
   * deleted dataset is newer than a surviving one.
   */
  lemma CleanupKeepsNewest(ds: seq<Dataset>, max: nat)
    requires NewestFirst(ds)
    ensures Survivors(ds, max) + ToDelete(ds, max) == ds
    ensures |ToDelete(ds, max)| == |ds| - Min(|ds|, max)
    ensures forall a, b :: 0 <= a < |Survivors(ds, max)| && 0 <= b < |ToDelete(ds, max)| ==>
      Survivors(ds, max)[a].uploadDate >= ToDelete(ds, max)[b].uploadDate
  {
    if |ds| > max {
      assert ds[..max] + ds[max..] == ds;
      forall a, b | 0 <= a < |Survivors(ds, max)| && 0 <= b < |ToDelete(ds, max)|
        ensures Survivors(ds, max)[a].uploadDate >= ToDelete(ds, max)[b].uploadDate
      {
        assert Survivors(ds, max)[a] == ds[a] && ToDelete(ds, max)[b] == ds[max + b];
      }
    }
  }

  /** A second cleanup straight after the first deletes nothing. */
  lemma CleanupIdempotent(ds: seq<Dataset>, max: nat)
    ensures ToDelete(Survivors(ds, max), max) == []
    ensures Survivors(Survivors(ds, max), max) == Survivors(ds, max)
  {
  }

  /** The preview lists exactly the datasets the cleanup then deletes. */
  lemma PreviewIsDeleted(ds: seq<Dataset>, max: nat)
    ensures ds == Survivors(ds, max) + ToDelete(ds, max)
    ensures |ToDelete(ds, max)| > 0 <==> |ds| > max
  {
    if |ds| > max {
      assert ds[..max] + ds[max..] == ds;
    }
  }

  /** Deleting by key leaves the untouched datasets in their order. */
  lemma {:induction false} WithoutKeepsOthers(ds: seq<Dataset>, id: nat, d: Dataset)
    requires d in ds && d.id != id
    ensures d in Without(ds, id)
  {
    if ds[0] != d {
      WithoutKeepsOthers(ds[1..], id, d);
    }
  }

  /** Deleting by key keeps nothing new and nothing with that key. */
  lemma {:induction false} WithoutOnlyRemoves(ds: seq<Dataset>, id: nat, d: Dataset)
    requires d in Without(ds, id)
    ensures d in ds && d.id != id
  {
    var rest := Without(ds[1..], id);
    assert Without(ds, id) == (if ds[0].id == id then [] else [ds[0]]) + rest;
    if d != ds[0] || ds[0].id == id {
      assert d in rest;
      WithoutOnlyRemoves(ds[1..], id, d);
    }
  }
}
