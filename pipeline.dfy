/** The entry point of the extract loader (`main`): download and save, stop
    early when the download failed, detect the format of the saved file,
    read it whole, and stop early when it is empty. The reading library is
    given as two oracles over the saved file's contents. */
module Pipeline {
  import opened Sniffer
  import opened Store

  /** How one run ends. `FormatUndetected` and `ReadRaised` are exceptions
      the entry point lets escape; the others are its returns. Errors of the
      directory operations escape too, but the directory here cannot fail. */
  datatype RunOutcome =
    | DownloadFailed
    | FormatUndetected
    | ReadRaised
    | EmptyFile
    | Previewed(format: Format)

  /** `main`. `sample(c)` is the two-row probe of a file holding `c`;
      `fullRead(c, f)` is how reading all of it with format `f` ends. */
  method Run(folder: Folder, fetch: Fetch, sample: Bytes -> Probe, fullRead: (Bytes, Format) -> Outcome)
    returns (o: RunOutcome)
    modifies folder
    ensures o.DownloadFailed? <==> !Downloaded(fetch)
    ensures o.DownloadFailed? ==> folder.entries == old(folder.entries)
    ensures !o.DownloadFailed? ==> folder.entries == Saved(old(folder.entries), fetch.body)
    ensures o.FormatUndetected? <==>
      Downloaded(fetch) && forall e, s | e in Encodings && s in Separators :: !Parses(sample(fetch.body)(e, s))
    ensures o.Previewed? ==>
      && Sniff(Encodings, Separators, sample(fetch.body)) == Detected(o.format)
      && fullRead(fetch.body, o.format) == NonEmpty
    ensures o.EmptyFile? <==>
      && Downloaded(fetch)
      && Sniff(Encodings, Separators, sample(fetch.body)).Detected?
      && fullRead(fetch.body, Sniff(Encodings, Separators, sample(fetch.body)).format) == Empty
    ensures o.ReadRaised? <==>
      && Downloaded(fetch)
      && Sniff(Encodings, Separators, sample(fetch.body)).Detected?
      && fullRead(fetch.body, Sniff(Encodings, Separators, sample(fetch.body)).format) == Throws
  {
    var saved := folder.CvmDwnldAndSave(fetch);
    if saved.None? {
      return DownloadFailed;
    }
    var contents := folder.entries[ExtractName];
    var detection := ReadCsvInterpreter(sample(contents));
    if detection.ValueError? {
      return FormatUndetected;
    }
    var frame := fullRead(contents, detection.format);
    if frame.Throws? {
      return ReadRaised;
    }
    if frame.Empty? {
      return EmptyFile;
    }
    return Previewed(detection.format);
  }

  /** A file whose every two-row sample raises or comes back empty (a
      zero-byte or header-only extract, say) never reaches the empty-file
      stop: the sniffer raises first, after the extract was saved. */
  method RunOnUnreadableSample(folder: Folder, body: Bytes, sample: Bytes -> Probe, fullRead: (Bytes, Format) -> Outcome)
    returns (o: RunOutcome)
    requires forall e, s | e in Encodings && s in Separators :: sample(body)(e, s).Throws? || sample(body)(e, s).Empty?
    modifies folder
    ensures o == FormatUndetected && !o.EmptyFile?
    ensures folder.entries == Saved(old(folder.entries), body)
  {
    o := Run(folder, Response(200, body), sample, fullRead);
  }
}
