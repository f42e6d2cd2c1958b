/** The local store: the target directory, the cleaner that removes old CSV
    files from it (`delete_old_files`) and the download step that replaces
    them with the fresh extract (`cvm_dwnld_and_save`).

    The directory is an idealised map from entry names to file contents;
    the HTTP fetch is not performed here but given as its outcome. */
module Store {
  import opened Wrappers

  newtype byte = x: int | 0 <= x < 256

  type Bytes = seq<byte>

  /** A directory: entry name to file contents. */
  type Listing = map<string, Bytes>

  /** The literal, case-sensitive suffix of the files the cleaner removes. */
  const CsvSuffix: string := ".csv"

  /** The name the downloaded extract is saved under. */
  const ExtractName: string := "extrato_fi.csv"

  /** `name.endswith('.csv')`. */
  predicate IsCsv(name: string) {
    |CsvSuffix| <= |name| && name[|name| - |CsvSuffix|..] == CsvSuffix
  }

  /** The names of the CSV files in a directory. */
  function CsvNames(d: Listing): set<string> {
    set n | n in d && IsCsv(n)
  }

  /** The directory after every CSV file was removed: no CSV file is left,
      every other entry is still there with the same contents, and nothing
      is added. */
  function WithoutCsv(d: Listing): (r: Listing)
    ensures forall n | n in r :: !IsCsv(n)
    ensures forall n | n in d && !IsCsv(n) :: n in r && r[n] == d[n]
    ensures r.Keys <= d.Keys
  {
    map n | n in d && !IsCsv(n) :: d[n]
  }

  /** The directory after old CSV files were removed and the extract
      written: the extract holds `body` and is the only CSV file, and the
      other entries are exactly the old non-CSV entries, unchanged. */
  function Saved(d: Listing, body: Bytes): (r: Listing)
    ensures ExtractName in r && r[ExtractName] == body
    ensures forall n | n in r && IsCsv(n) :: n == ExtractName
    ensures forall n | n in d && !IsCsv(n) :: n in r && r[n] == d[n]
    ensures forall n | n in r && n != ExtractName :: n in d && !IsCsv(n)
  {
    WithoutCsv(d)[ExtractName := body]
  }

  /** How the HTTP request ended: it raised, or it returned a status code
      and a body. */
  datatype Fetch = FetchFailed | Response(status: int, body: Bytes)

  /** Only a response with status 200 counts as a download. */
  predicate Downloaded(f: Fetch) {
    f.Response? && f.status == 200
  }

  /** Removing CSV files twice removes nothing more. */
  lemma WithoutCsvIdempotent(d: Listing)
    ensures WithoutCsv(WithoutCsv(d)) == WithoutCsv(d)
  {
  }

  /** After a save exactly one CSV file is present: the extract. */
  lemma SavedHasOneCsv(d: Listing, body: Bytes)
    ensures CsvNames(Saved(d, body)) == {ExtractName}
  {
  }

  /** Saving again overwrites: two successful runs in a row leave the same
      directory as the second run alone would, so still one CSV file. */
  lemma SaveTwiceIsSaveOnce(d: Listing, first: Bytes, second: Bytes)
    ensures Saved(Saved(d, first), second) == Saved(d, second)
  {
  }

  /** The target directory, updated in place. */
  class Folder {
    var entries: Listing

    constructor (initial: Listing)
      ensures entries == initial
    {
      entries := initial;
    }

    /** `delete_old_files`: walk the listing, in whatever order it comes,
        and remove each entry whose name ends in ".csv". */
    method DeleteOldFiles()
      modifies this
      ensures entries == WithoutCsv(old(entries))
    {
      ghost var before := entries;
      var listing := entries.Keys;
      while listing != {}
        invariant listing <= before.Keys
        invariant entries.Keys <= before.Keys
        invariant forall n | n in entries :: entries[n] == before[n]
        invariant forall n | n in before :: n in entries <==> n in listing || !IsCsv(n)
        decreases listing
      {
        var name :| name in listing;
        if IsCsv(name) {
          entries := entries - {name};
        }
        listing := listing - {name};
      }
      assert entries.Keys == WithoutCsv(before).Keys;
    }

    /** `cvm_dwnld_and_save`: on a status-200 response remove the old CSV
        files, write the body as the extract and return 1; on a failed
        request or any other status return None and touch nothing. */
    method CvmDwnldAndSave(fetch: Fetch) returns (r: Option<int>)
      modifies this
      ensures r == (if Downloaded(fetch) then Some(1) else None)
      ensures !Downloaded(fetch) ==> entries == old(entries)
      ensures Downloaded(fetch) ==> entries == Saved(old(entries), fetch.body)
    {
      if fetch.FetchFailed? {
        return None;
      }
      if fetch.status == 200 {
        DeleteOldFiles();
        entries := entries[ExtractName := fetch.body];
      } else {
        return None;
      }
      return Some(1);
    }
  }
}
