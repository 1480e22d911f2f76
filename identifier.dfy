/** `FileIdentifierApp.identify` (src/file_identifier.py): the standalone identifier, which
    reports one of three outcomes for a file picked by the user. */
module Identifier {
  import opened Text
  import opened Files
  import opened Sizes
  import Detector

  /** The lookup table of `mime_to_extension`. It lists the same twenty pairs as the
      detector's table, in the same order, and lacks only its entry for
      "application/x-msdos-program"; it is written here as that difference. */
  const MimeTable: map<string, string> := Detector.MimeTable - {"application/x-msdos-program"}

  /** `mime_to_extension`: total, with "bin" for every MIME type outside the table. */
  function MimeToExtension(mime: string): (ext: string)
    ensures mime !in MimeTable ==> ext == "bin"
    ensures mime in MimeTable ==> ext == MimeTable[mime]
    ensures mime == "application/x-msdos-program" ==> ext == "bin"
    ensures ext in Detector.KnownExtensions
  {
    if mime in MimeTable then MimeTable[mime] else "bin"
  }

  /** The two tables are the same except for "application/x-msdos-program". */
  lemma TablesAgree(mime: string)
    ensures mime != "application/x-msdos-program" <==>
      MimeToExtension(mime) == Detector.MimeToExtension(mime)
  {
    if mime == "application/x-msdos-program" {
      Detector.ExecutableMimeTypes();
    }
  }

  /** The three outcomes of `identify` for a readable file. */
  datatype Verdict = Mismatch | NoExtension | Matches

  /** The branch taken by `identify`: a claimed extension that differs, ignoring case, from the
      one the content implies is a mismatch; no extension is reported as such; otherwise the
      extension matches. There is no exemption for in-progress extensions. */
  function Classify(currentExt: string, trueExt: string): (v: Verdict)
  {
    if currentExt != "" && Lower(currentExt) != Lower(trueExt) then Mismatch
    else if currentExt == "" then NoExtension
    else Matches
  }

  /** Every extension yields exactly the verdict its case describes. */
  lemma ClassifyCases(currentExt: string, trueExt: string)
    requires IsLower(trueExt)
    ensures Classify(currentExt, trueExt) == NoExtension <==> currentExt == ""
    ensures Classify(currentExt, trueExt) == Matches <==> currentExt != "" && Lower(currentExt) == trueExt
    ensures Classify(currentExt, trueExt) == Mismatch <==> currentExt != "" && Lower(currentExt) != trueExt
  {
    LowerIdempotent(trueExt);
  }

  /** The detector's verdict is the identifier's mismatch minus the benign extensions: "x.tmp"
      whose content is text is a mismatch here but not suspicious there. */
  lemma VerdictsCompared(currentExt: string, trueExt: string)
    ensures Detector.IsSuspicious(currentExt, trueExt) <==>
      Classify(currentExt, trueExt) == Mismatch && currentExt !in Detector.BenignExtensions
    ensures currentExt in Detector.BenignExtensions && currentExt != trueExt && IsLower(trueExt) ==>
      Classify(currentExt, trueExt) == Mismatch && !Detector.IsSuspicious(currentExt, trueExt)
  {
    if currentExt in Detector.BenignExtensions && currentExt != trueExt && IsLower(trueExt) {
      assert IsLower(currentExt);
      LowerIdempotent(currentExt);
      LowerIdempotent(trueExt);
    }
  }

  /** The text `identify` shows for a readable file (the modification time is not modelled). */
  datatype Report = Report(fileName: string, size: Size, description: string, mime: string,
                           trueExtension: string, currentExtension: string, magicBytes: string,
                           verdict: Verdict)

  /** The three things `identify` can show: a warning to pick a valid file, the message of an
      exception raised while reading the file, or the report. */
  datatype Outcome = InvalidSelection | Failed(error: string) | Identified(report: Report)

  /** `identify()`, for the entered `path`; `isFile` is `os.path.isfile(path)` and `probe`
      what reading the file yields. */
  function Identify(path: string, isFile: bool, probe: Probe): (r: Outcome)
    ensures r == InvalidSelection <==> path == "" || !isFile
    ensures r.Failed? <==> path != "" && isFile && probe.Unreadable?
    ensures r.Failed? ==> r.error == probe.error
    ensures r.Identified? ==>
      && r.report.fileName == Basename(path)
      && r.report.size == Sized(probe.size)
      && r.report.description == probe.description
      && r.report.mime == probe.mime
      && r.report.magicBytes == Detector.MagicHex(Detector.LeadingBytes(probe.content))
    ensures r.Identified? ==>
      var ext := Detector.CurrentExtension(Basename(path));
      && r.report.trueExtension == MimeToExtension(probe.mime)
      && (r.report.verdict == NoExtension <==> ext == "")
      && (r.report.verdict == NoExtension <==> r.report.currentExtension == "(none)" && ext == "")
      && (r.report.verdict == Mismatch <==> ext != "" && ext != r.report.trueExtension)
      && (ext != "" ==> r.report.currentExtension == ext)
  {
    if path == "" || !isFile then InvalidSelection
    else match probe
      case Unreadable(error) => Failed(error)
      case Readable(size, content, mime, description) =>
        var name := Basename(path);
        var trueExt := MimeToExtension(mime);
        var currentExt := Detector.CurrentExtension(name);
        Detector.KnownExtensionsAreLower(trueExt);
        ClassifyCases(currentExt, trueExt);
        LowerIdempotent(currentExt);
        Identified(Report(name, Sized(size), description, mime, trueExt,
                          Detector.ShownExtension(currentExt),
                          Detector.MagicHex(Detector.LeadingBytes(content)),
                          Classify(currentExt, trueExt)))
  }

  /** The detector and the identifier disagree on "application/x-msdos-program" content: the
      detector maps it to "exe", the identifier to "bin". So "name.exe" is safe for the
      detector and a mismatch for the identifier, and "name.bin" the other way round. */
  lemma MsdosProgramDisagreement(stem: string, ext: string, probe: Probe)
    requires probe.Readable? && probe.mime == "application/x-msdos-program"
    requires |stem| > 0 && stem[0] != '.' && '/' !in stem
    requires ext in ["exe", "bin"]
    ensures Detector.Analyze(stem + "." + ext, probe).Suspicious() <==> ext == "bin"
    ensures Identify(stem + "." + ext, true, probe).report.verdict ==
      (if ext == "exe" then Mismatch else Matches)
  {
    assert IsLower(ext) && '/' !in ext;
    MsdosDetectorSide(stem, ext, probe);
    MsdosIdentifierSide(stem, ext, probe);
  }

  /** The detector's half of MsdosProgramDisagreement. */
  lemma MsdosDetectorSide(stem: string, ext: string, probe: Probe)
    requires probe.Readable? && probe.mime == "application/x-msdos-program"
    requires |stem| > 0 && stem[0] != '.' && '/' !in stem
    requires ext in ["exe", "bin"] && IsLower(ext) && '/' !in ext
    ensures Detector.Analyze(stem + "." + ext, probe).Suspicious() <==> ext == "bin"
  {
    Detector.NamedFileVerdict(stem, ext, probe);
    Detector.ExecutableMimeTypes();
    ExeOrBin(ext);
  }

  /** The identifier's half of MsdosProgramDisagreement. */
  lemma MsdosIdentifierSide(stem: string, ext: string, probe: Probe)
    requires probe.Readable? && probe.mime == "application/x-msdos-program"
    requires |stem| > 0 && stem[0] != '.' && '/' !in stem
    requires ext in ["exe", "bin"] && IsLower(ext) && '/' !in ext
    ensures Identify(stem + "." + ext, true, probe).report.verdict ==
      (if ext == "exe" then Mismatch else Matches)
  {
    Detector.ExtensionNamed(stem, ext);
    assert MimeToExtension(probe.mime) == "bin";
  }

  /** Of "exe" and "bin", only "bin" is neither benign nor "exe". */
  lemma ExeOrBin(ext: string)
    requires ext in ["exe", "bin"]
    ensures ext !in Detector.BenignExtensions && ext != "exe" <==> ext == "bin"
  {
  }

  /** `format_size`: the same division loop as the detector's. */
  method FormatSize(size: nat) returns (r: Size)
    ensures r == Sized(size)
  {
    var value: real := size as real;
    var i := 0;
    ghost var scale: nat := 1;
    while i < 4
      invariant 0 <= i <= 4
      invariant scale == Scale(UnitAt(i))
      invariant value * scale as real == size as real
      invariant i > 0 ==> value >= 1.0
    {
      if value < 1024.0 {
        SizedUnique(size, UnitAt(i), value);
        return Size(value, UnitAt(i));
      }
      value := value / 1024.0;
      scale := scale * 1024;
      i := i + 1;
    }
    SizedUnique(size, TB, value);
    r := Size(value, TB);
  }
}
