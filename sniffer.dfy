/** The separator/encoding sniffer of the extract loader (`read_csv_interpreter`).

    Reading the first two rows of the file with a given encoding and
    separator is done by a tabular-data library that is not part of this
    model; it is represented by a `Probe`, an uninterpreted oracle that says
    how that attempt ended. What is modelled and proved is the search rule
    around it: the candidate pairs are tried encoding-major,
    separator-minor, the first pair whose probe yields a non-empty result is
    returned, every failure is skipped alike, and running out of candidates
    is an error. */
module Sniffer {
  import opened Wrappers

  /** Candidate field separators, in the order they are tried. */
  const Separators: seq<string> := [";", "/", "|", "\t", ","]

  /** Candidate text encodings, in the order they are tried. */
  const Encodings: seq<string> := ["utf-8", "latin1", "iso-8859-1"]

  /** How one attempt to read the two-row sample ended: the reader raised,
      it produced an empty frame, or it produced a non-empty frame. */
  datatype Outcome = Throws | Empty | NonEmpty

  /** The sample reader for one fixed file, given (encoding, separator). */
  type Probe = (string, string) -> Outcome

  /** Only a non-empty frame is a success; raising and empty are both failures. */
  predicate Parses(o: Outcome) {
    o.NonEmpty?
  }

  /** The detected pair, in the order the source returns it: (separator, encoding). */
  datatype Format = Format(sep: string, encoding: string)

  /** Either a detected format or the `ValueError` raised when no pair works. */
  datatype Detection = Detected(format: Format) | ValueError

  /** The inner loop: the first separator of `seps` whose probe under `enc` parses. */
  function FirstSeparator(enc: string, seps: seq<string>, probe: Probe): (r: Option<string>)
    ensures r.Some? ==> r.value in seps && Parses(probe(enc, r.value))
    ensures r.None? <==> forall s | s in seps :: !Parses(probe(enc, s))
  {
    if seps == [] then None
    else if Parses(probe(enc, seps[0])) then Some(seps[0])
    else FirstSeparator(enc, seps[1..], probe)
  }

  /** The whole search: encodings in order, and for each of them the separators in order. */
  function Sniff(encs: seq<string>, seps: seq<string>, probe: Probe): (r: Detection)
    ensures r.Detected? ==>
      && r.format.encoding in encs
      && r.format.sep in seps
      && Parses(probe(r.format.encoding, r.format.sep))
    ensures r.ValueError? <==> forall e, s | e in encs && s in seps :: !Parses(probe(e, s))
  {
    if encs == [] then ValueError
    else match FirstSeparator(encs[0], seps, probe)
      case Some(sep) => Detected(Format(sep, encs[0]))
      case None => Sniff(encs[1..], seps, probe)
  }

  /** Position (ej, sj) comes before position (ei, si) in encoding-major,
      separator-minor order. */
  predicate Earlier(ej: int, sj: int, ei: int, si: int) {
    ej < ei || (ej == ei && sj < si)
  }

  /** No pair tried before position (ei, si) parses. */
  predicate NoneParsesBefore(encs: seq<string>, seps: seq<string>, probe: Probe, ei: int, si: int) {
    forall ej, sj | 0 <= ej < |encs| && 0 <= sj < |seps| && Earlier(ej, sj, ei, si) ::
      !Parses(probe(encs[ej], seps[sj]))
  }

  /** `read_csv_interpreter`: two nested loops over the fixed candidate lists
      with an early return on the first pair that parses. */
  method ReadCsvInterpreter(probe: Probe) returns (r: Detection)
    ensures r == Sniff(Encodings, Separators, probe)
    ensures r.Detected? ==>
      && r.format.sep in [";", "/", "|", "\t", ","]
      && r.format.encoding in ["utf-8", "latin1", "iso-8859-1"]
  {
    for i := 0 to |Encodings|
      invariant Sniff(Encodings, Separators, probe) == Sniff(Encodings[i..], Separators, probe)
    {
      var encoding := Encodings[i];
      for j := 0 to |Separators|
        invariant FirstSeparator(encoding, Separators, probe) == FirstSeparator(encoding, Separators[j..], probe)
      {
        var sep := Separators[j];
        if Parses(probe(encoding, sep)) {
          assert Separators[j..][0] == sep;
          assert Encodings[i..][0] == encoding;
          return Detected(Format(sep, encoding));
        }
        assert Separators[j..][1..] == Separators[j + 1..];
      }
      assert Encodings[i..][1..] == Encodings[i + 1..];
    }
    return ValueError;
  }

  /** The inner loop returns the first separator that parses: every separator
      before it fails. */
  lemma {:induction false} FirstSeparatorIsFirst(enc: string, seps: seq<string>, probe: Probe)
    ensures FirstSeparator(enc, seps, probe).Some? ==>
      exists si | 0 <= si < |seps| ::
        && seps[si] == FirstSeparator(enc, seps, probe).value
        && forall sj | 0 <= sj < si :: !Parses(probe(enc, seps[sj]))
  {
    if seps != [] && !Parses(probe(enc, seps[0])) {
      FirstSeparatorIsFirst(enc, seps[1..], probe);
      if FirstSeparator(enc, seps, probe).Some? {
        var si :| 0 <= si < |seps[1..]|
          && seps[1..][si] == FirstSeparator(enc, seps[1..], probe).value
          && forall sj | 0 <= sj < si :: !Parses(probe(enc, seps[1..][sj]));
        assert seps[si + 1] == FirstSeparator(enc, seps, probe).value;
        forall sj | 0 <= sj < si + 1
          ensures !Parses(probe(enc, seps[sj]))
        {
          if sj > 0 { assert seps[sj] == seps[1..][sj - 1]; }
        }
      }
    }
  }

  /** Conversely, a separator that parses and follows only failing ones is
      the one the inner loop returns. */
  lemma {:induction false} FirstSeparatorAt(enc: string, seps: seq<string>, probe: Probe, si: int)
    requires 0 <= si < |seps| && Parses(probe(enc, seps[si]))
    requires forall sj | 0 <= sj < si :: !Parses(probe(enc, seps[sj]))
    ensures FirstSeparator(enc, seps, probe) == Some(seps[si])
  {
    if si > 0 {
      assert !Parses(probe(enc, seps[0]));
      FirstSeparatorAt(enc, seps[1..], probe, si - 1);
    }
  }

  /** When no separator parses under the first encoding, a position that
      only failing pairs precede in the remaining encodings is, one
      encoding further on, preceded only by failing pairs in the whole list. */
  lemma NoneParsesBeforeShift(encs: seq<string>, seps: seq<string>, probe: Probe, ei: int, si: int)
    requires encs != []
    requires forall s | s in seps :: !Parses(probe(encs[0], s))
    requires NoneParsesBefore(encs[1..], seps, probe, ei, si)
    ensures NoneParsesBefore(encs, seps, probe, ei + 1, si)
  {
    forall ej, sj | 0 <= ej < |encs| && 0 <= sj < |seps| && Earlier(ej, sj, ei + 1, si)
      ensures !Parses(probe(encs[ej], seps[sj]))
    {
      if ej == 0 {
        assert seps[sj] in seps;
      } else {
        assert encs[ej] == encs[1..][ej - 1];
      }
    }
  }

  /** Soundness of the search order: a detected pair parses and every pair
      tried before it, in encoding-major order, failed. */
  lemma {:induction false} SniffIsFirst(encs: seq<string>, seps: seq<string>, probe: Probe)
    ensures Sniff(encs, seps, probe).Detected? ==>
      exists ei, si | 0 <= ei < |encs| && 0 <= si < |seps| ::
        && Sniff(encs, seps, probe).format == Format(seps[si], encs[ei])
        && Parses(probe(encs[ei], seps[si]))
        && NoneParsesBefore(encs, seps, probe, ei, si)
  {
    if encs != [] {
      var first := FirstSeparator(encs[0], seps, probe);
      if first.Some? {
        FirstSeparatorIsFirst(encs[0], seps, probe);
        var si :| 0 <= si < |seps| && seps[si] == first.value
          && forall sj | 0 <= sj < si :: !Parses(probe(encs[0], seps[sj]));
        assert NoneParsesBefore(encs, seps, probe, 0, si);
      } else {
        var rest := encs[1..];
        SniffIsFirst(rest, seps, probe);
        if Sniff(rest, seps, probe).Detected? {
          var ei, si :| 0 <= ei < |rest| && 0 <= si < |seps|
            && Sniff(rest, seps, probe).format == Format(seps[si], rest[ei])
            && Parses(probe(rest[ei], seps[si]))
            && NoneParsesBefore(rest, seps, probe, ei, si);
          NoneParsesBeforeShift(encs, seps, probe, ei, si);
          assert encs[ei + 1] == rest[ei];
        }
      }
    }
  }

  /** Completeness of the search order: the first pair, in encoding-major,
      separator-minor order, whose probe parses is the pair detected,
      whatever the later probes say. */
  lemma {:induction false} FirstParsingPairWins(encs: seq<string>, seps: seq<string>, probe: Probe, ei: int, si: int)
    requires 0 <= ei < |encs| && 0 <= si < |seps|
    requires Parses(probe(encs[ei], seps[si]))
    requires NoneParsesBefore(encs, seps, probe, ei, si)
    ensures Sniff(encs, seps, probe) == Detected(Format(seps[si], encs[ei]))
  {
    if ei == 0 {
      forall sj | 0 <= sj < si
        ensures !Parses(probe(encs[0], seps[sj]))
      {
        assert Earlier(0, sj, ei, si);
      }
      FirstSeparatorAt(encs[0], seps, probe, si);
    } else {
      forall s | s in seps
        ensures !Parses(probe(encs[0], s))
      {
        var sj :| 0 <= sj < |seps| && seps[sj] == s;
        assert Earlier(0, sj, ei, si);
      }
      var rest := encs[1..];
      forall ej, sj | 0 <= ej < |rest| && 0 <= sj < |seps| && Earlier(ej, sj, ei - 1, si)
        ensures !Parses(probe(rest[ej], seps[sj]))
      {
        assert rest[ej] == encs[ej + 1];
        assert Earlier(ej + 1, sj, ei, si);
      }
      FirstParsingPairWins(rest, seps, probe, ei - 1, si);
    }
  }

  /** Two probes that agree on which attempts parse, one per encoding, pick
      the same separator. */
  lemma {:induction false} FirstSeparatorAgrees(e1: string, p1: Probe, e2: string, p2: Probe, seps: seq<string>)
    requires forall s | s in seps :: Parses(p1(e1, s)) == Parses(p2(e2, s))
    ensures FirstSeparator(e1, seps, p1) == FirstSeparator(e2, seps, p2)
  {
    if seps != [] {
      assert seps[0] in seps;
      FirstSeparatorAgrees(e1, p1, e2, p2, seps[1..]);
    }
  }

  /** A probe that raises and a probe that yields an empty frame are treated
      alike: only whether each attempt parses decides the outcome. */
  lemma {:induction false} OnlyParsingMatters(encs: seq<string>, seps: seq<string>, p1: Probe, p2: Probe)
    requires forall e, s | e in encs && s in seps :: Parses(p1(e, s)) == Parses(p2(e, s))
    ensures Sniff(encs, seps, p1) == Sniff(encs, seps, p2)
  {
    if encs != [] {
      assert encs[0] in encs;
      FirstSeparatorAgrees(encs[0], p1, encs[0], p2, seps);
      OnlyParsingMatters(encs[1..], seps, p1, p2);
    }
  }

  /** "latin1" and "iso-8859-1" name the same codec, so a probe that decodes
      both alike never lets the search reach "iso-8859-1": the third
      candidate encoding can never be the one returned. */
  lemma Iso88591NeverDetected(probe: Probe)
    requires forall s :: probe("latin1", s) == probe("iso-8859-1", s)
    ensures Sniff(Encodings, Separators, probe).Detected? ==>
      Sniff(Encodings, Separators, probe).format.encoding != "iso-8859-1"
  {
  }

  /** A file whose sample parses as utf-8 with ';' is detected as exactly
      that pair, whatever the other probes say. */
  lemma Utf8SemicolonWins(probe: Probe)
    requires probe("utf-8", ";") == NonEmpty
    ensures Sniff(Encodings, Separators, probe) == Detected(Format(";", "utf-8"))
  {
  }
}
