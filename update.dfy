/**
 * One run of the roster update after the scrape: load the saved file, merge
 * the scrape into it, save the result. The file is a value here: `None`
 * when there is no file yet, otherwise the rows it holds.
 */
module Update {
  import opened Wrappers
  import opened Records
  import Merge

  /** `cargar_legisladores_existentes`: the saved rows, or none when there is no file. */
  function Load(file: Option<seq<Legislator>>): (rows: seq<Legislator>)
    ensures file.None? ==> rows == []
    ensures file.Some? ==> rows == file.value
  {
    match file
    case None => []
    case Some(saved) => saved
  }

  /** `guardar_csv`: refuses to write when there is nothing to write. */
  method Save(file: Option<seq<Legislator>>, data: seq<Legislator>)
    returns (written: Option<seq<Legislator>>, ok: bool)
    ensures ok <==> data != []
    ensures ok ==> written == Some(data)
    ensures !ok ==> written == file
  {
    if data == [] {
      return file, false;
    }
    written, ok := Some(data), true;
  }

  /**
   * `main` from the scrape on: merging and saving happen only when the
   * scrape returned rows, so an empty scrape leaves the file as it was.
   * Otherwise the file afterwards holds the merge of the scrape into what
   * was on file, one row per scraped row.
   */
  method Run(file: Option<seq<Legislator>>, scraped: seq<Legislator>)
    returns (next: Option<seq<Legislator>>, updated: nat, added: nat)
    ensures scraped == [] ==> next == file && updated == 0 && added == 0
    ensures scraped != [] ==> next == Some(Merge.Merged(Load(file), scraped))
    ensures scraped != [] ==> |next.value| == |scraped| && updated + added == |scraped|
  {
    next, updated, added := file, 0, 0;
    if scraped != [] {
      var existing := Load(file);
      var merged;
      merged, updated, added := Merge.Combine(existing, scraped);
      var ok;
      next, ok := Save(file, merged);
    }
  }
}
