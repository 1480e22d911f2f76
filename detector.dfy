/** `FileTypeDetector` (src/detector.py): builds the detection record of one file from what
    libmagic and the file system report about it (a `Probe`), and decides whether the file's
    extension contradicts its content. */
module Detector {
  import opened Wrappers
  import opened Text
  import opened Files
  import opened Sizes

  // ---------------------------------------------------------------------------------------
  // MIME type -> canonical extension

  /** The fixed lookup table of `_mime_to_extension`. */
  const MimeTable: map<string, string> := map[
    "application/pdf" := "pdf",
    "application/zip" := "zip",
    "application/x-rar-compressed" := "rar",
    "application/x-7z-compressed" := "7z",
    "application/x-msdownload" := "exe",
    "application/x-msdos-program" := "exe",
    "application/x-elf" := "elf",
    "image/jpeg" := "jpg",
    "image/png" := "png",
    "image/gif" := "gif",
    "image/bmp" := "bmp",
    "audio/mpeg" := "mp3",
    "audio/mp4" := "m4a",
    "video/mp4" := "mp4",
    "video/x-msvideo" := "avi",
    "text/plain" := "txt",
    "text/html" := "html",
    "application/json" := "json",
    "application/xml" := "xml",
    "application/msword" := "doc",
    "application/vnd.openxmlformats-officedocument.wordprocessingml.document" := "docx"
  ]

  /** The extensions the table can produce, together with the fallback "bin". */
  const KnownExtensions: set<string> :=
    {"pdf", "zip", "rar", "7z", "exe", "elf", "jpg", "png", "gif", "bmp", "mp3", "m4a", "mp4",
     "avi", "txt", "html", "json", "xml", "doc", "docx", "bin"}

  /** `_mime_to_extension`: total, with "bin" for every MIME type outside the table. */
  function MimeToExtension(mime: string): (ext: string)
    ensures mime !in MimeTable ==> ext == "bin"
    ensures mime in MimeTable ==> ext == MimeTable[mime]
    ensures ext in KnownExtensions
  {
    if mime in MimeTable then MimeTable[mime] else "bin"
  }

  /** Every extension the table produces is lower-case and has no '.'. */
  lemma KnownExtensionsAreLower(ext: string)
    requires ext in KnownExtensions
    ensures IsLower(ext) && '.' !in ext
  {
  }

  /** Both Windows executable MIME types map to "exe". */
  lemma ExecutableMimeTypes()
    ensures MimeToExtension("application/x-msdownload") == "exe"
    ensures MimeToExtension("application/x-msdos-program") == "exe"
  {
  }

  // ---------------------------------------------------------------------------------------
  // Extension of the file name

  /** `s.rfind(c)`, as an option. */
  function LastIndexOf(s: string, c: char): (r: Option<nat>)
    ensures r.None? ==> c !in s
    ensures r.Some? ==> r.value < |s| && s[r.value] == c && c !in s[r.value + 1..]
  {
    if |s| == 0 then None
    else if s[|s| - 1] == c then Some(|s| - 1)
    else
      var r := LastIndexOf(s[..|s| - 1], c);
      assert r.Some? ==> s[r.value + 1..] == s[..|s| - 1][r.value + 1..] + [s[|s| - 1]];
      assert r.None? ==> s == s[..|s| - 1] + [s[|s| - 1]];
      r
  }

  /** The last occurrence of `c` is the one after which `c` does not occur. */
  lemma {:induction false} LastIndexOfAt(s: string, c: char, i: nat)
    requires i < |s| && s[i] == c && c !in s[i + 1..]
    ensures LastIndexOf(s, c) == Some(i)
  {
    if i < |s| - 1 {
      assert s[|s| - 1] in s[i + 1..];
      assert s[..|s| - 1][i + 1..] == s[i + 1..|s| - 1];
      LastIndexOfAt(s[..|s| - 1], c, i);
    }
  }

  /** `os.path.splitext` applied to a base name (no separator in it): the extension starts at
      the last '.', unless only dots come before that '.' (leading dots belong to the root). */
  function SplitExt(name: string): (r: (string, string))
    ensures r.0 + r.1 == name
    ensures r.1 == "" || (r.1[0] == '.' && '.' !in r.1[1..])
  {
    match LastIndexOf(name, '.')
    case None => (name, "")
    case Some(i) =>
      if AllChar(name[..i], '.') then (name, "")
      else
        assert name[..i] + name[i..] == name;
        (name[..i], name[i..])
  }

  /** Lower-casing then stripping the dot of an extension as `splitext` returns it gives the
      lower-cased text after the dot. */
  lemma StripDottedExtension(raw: string)
    requires raw != [] && raw[0] == '.'
    ensures LStrip(Lower(raw), '.') == Lower(raw[1..]) || '.' in raw[1..]
  {
    var t := raw[1..];
    if '.' !in t {
      assert Lower(raw) == "." + Lower(t);
      LowerKeepsDots(t);
      if Lower(t) != [] {
        assert Lower(t)[0] != '.';
      }
    }
  }

  /** `os.path.splitext(fname)[1].lower().lstrip('.')`. */
  function CurrentExtension(name: string): (ext: string)
    ensures '.' !in ext
    ensures IsLower(ext)
    ensures SplitExt(name).1 == [] ==> ext == []
  {
    var raw := SplitExt(name).1;
    if raw == [] then LStrip(Lower(raw), '.')
    else
      StripDottedExtension(raw);
      LowerKeepsDots(raw[1..]);
      LowerIdempotent(raw[1..]);
      LStrip(Lower(raw), '.')
  }

  /** The extension is what follows the last '.', provided some character other than '.'
      comes before that '.'. */
  lemma ExtensionOf(stem: string, ext: string)
    requires !AllChar(stem, '.')
    requires '.' !in ext
    ensures CurrentExtension(stem + "." + ext) == Lower(ext)
  {
    var name := stem + "." + ext;
    assert name[|stem| + 1..] == ext;
    LastIndexOfAt(name, '.', |stem|);
    assert name[..|stem|] == stem;
    var raw := name[|stem|..];
    assert raw == "." + ext;
    assert SplitExt(name).1 == raw;
    assert raw[1..] == ext;
    StripDottedExtension(raw);
  }

  /** A non-empty extension from `splitext` starts at the last '.', which has a non-dot
      character before it. */
  lemma SplitAtLastDot(name: string) returns (i: nat)
    requires SplitExt(name).1 != []
    ensures i < |name| && name[i] == '.' && '.' !in name[i + 1..]
    ensures !AllChar(name[..i], '.')
  {
    i := LastIndexOf(name, '.').value;
  }

  /** Conversely, a non-empty extension always comes from such a split of the name. */
  lemma ExtensionSource(name: string) returns (stem: string, ext: string)
    requires CurrentExtension(name) != ""
    ensures name == stem + "." + ext
    ensures !AllChar(stem, '.') && '.' !in ext && ext != ""
    ensures CurrentExtension(name) == Lower(ext)
  {
    var i := SplitAtLastDot(name);
    stem, ext := SplitAround(name, i);
    ExtensionOf(stem, ext);
  }

  /** The parts of `name` before and after position `i`, which holds a '.'. */
  lemma SplitAround(name: string, i: nat) returns (stem: string, ext: string)
    requires i < |name| && name[i] == '.'
    ensures stem == name[..i] && ext == name[i + 1..]
    ensures name == stem + "." + ext
  {
    stem, ext := name[..i], name[i + 1..];
    assert name == name[..i] + [name[i]] + name[i + 1..];
  }

  /** A name without any '.' has no extension. */
  lemma NoDotNoExtension(name: string)
    requires '.' !in name
    ensures CurrentExtension(name) == ""
  {
  }

  /** A name ending in '.' has no extension. */
  lemma TrailingDotNoExtension(name: string)
    requires |name| > 0 && name[|name| - 1] == '.'
    ensures CurrentExtension(name) == ""
  {
    var i := |name| - 1;
    LastIndexOfAt(name, '.', i);
  }

  /** A name whose only dots are leading ones (".bashrc", "..profile") has no extension. */
  lemma LeadingDotsNoExtension(dots: string, rest: string)
    requires AllChar(dots, '.') && '.' !in rest
    ensures CurrentExtension(dots + rest) == ""
  {
    var name := dots + rest;
    if |dots| > 0 {
      assert name[|dots|..] == rest;
      LastIndexOfAt(name, '.', |dots| - 1);
      assert name[..|dots| - 1] == dots[..|dots| - 1];
    } else {
      assert name == rest;
    }
    assert SplitExt(name).1 == [];
  }

  // ---------------------------------------------------------------------------------------
  // Verdict

  /** Extensions that are never reported, even when they contradict the content. */
  const BenignExtensions: seq<string> := ["tmp", "temp", "part"]

  /** `is_suspicious`: an extension is claimed, it differs (ignoring case) from the one the
      content implies, and it is not one of the benign in-progress extensions. */
  predicate IsSuspicious(currentExt: string, trueExt: string) {
    currentExt != "" && Lower(currentExt) != Lower(trueExt) && currentExt !in BenignExtensions
  }

  // ---------------------------------------------------------------------------------------
  // Magic bytes as text: `f.read(16).hex(' ').upper()`

  /** Number of leading bytes read from the file. */
  const MagicLength: nat := 16

  /** `f.read(16)`: at most the first 16 bytes. */
  function LeadingBytes(content: seq<byte>): (r: seq<byte>)
    ensures |r| == if |content| < MagicLength then |content| else MagicLength
    ensures r <= content
  {
    if |content| <= MagicLength then content else content[..MagicLength]
  }

  /** The value of an upper-case hexadecimal digit. */
  function DigitValue(c: char): (r: Option<nat>)
    ensures r.Some? ==> r.value < 16
    ensures r.Some? <==> ('0' <= c <= '9' || 'A' <= c <= 'F')
  {
    if '0' <= c <= '9' then Some(c as int - '0' as int)
    else if 'A' <= c <= 'F' then Some(c as int - 'A' as int + 10)
    else None
  }

  /** The upper-case hexadecimal digit of `d`. */
  function HexDigit(d: nat): (c: char)
    requires d < 16
    ensures DigitValue(c) == Some(d)
  {
    if d < 10 then ('0' as int + d) as char else ('A' as int + d - 10) as char
  }

  /** Two upper-case hexadecimal digits of one byte. */
  function HexPair(b: byte): (s: string)
    ensures |s| == 2
    ensures DigitValue(s[0]).Some? && DigitValue(s[1]).Some?
    ensures DigitValue(s[0]).value * 16 + DigitValue(s[1]).value == b
  {
    [HexDigit(b / 16), HexDigit(b % 16)]
  }

  /** `bytes.hex(' ').upper()`: one two-digit pair per byte, separated by single spaces. */
  function MagicHex(bs: seq<byte>): (s: string)
    ensures |s| == if bs == [] then 0 else 3 * |bs| - 1
  {
    if bs == [] then ""
    else if |bs| == 1 then HexPair(bs[0])
    else HexPair(bs[0]) + " " + MagicHex(bs[1..])
  }

  /** Reads back a text of the shape MagicHex produces; None for any other text. */
  function ParseHex(s: string): (r: Option<seq<byte>>)
    ensures r.Some? ==> |s| == if r.value == [] then 0 else 3 * |r.value| - 1
    decreases |s|
  {
    if |s| == 0 then Some([])
    else if |s| < 2 || DigitValue(s[0]).None? || DigitValue(s[1]).None? then None
    else
      var b: byte := DigitValue(s[0]).value * 16 + DigitValue(s[1]).value;
      if |s| == 2 then Some([b])
      else if |s| == 3 || s[2] != ' ' then None
      else match ParseHex(s[3..])
        case None => None
        case Some(rest) => Some([b] + rest)
  }

  /** The rendering of the magic bytes loses nothing: it reads back to the same bytes. */
  lemma {:induction false} MagicHexRoundTrip(bs: seq<byte>)
    ensures ParseHex(MagicHex(bs)) == Some(bs)
  {
    if |bs| > 1 {
      var s := MagicHex(bs);
      assert s[..2] == HexPair(bs[0]);
      assert s[2] == ' ';
      assert s[3..] == MagicHex(bs[1..]);
      MagicHexRoundTrip(bs[1..]);
      assert [bs[0]] + bs[1..] == bs;
    } else if |bs| == 1 {
      assert [bs[0]] == bs;
    }
  }

  /** Distinct byte strings render differently. */
  lemma MagicHexInjective(a: seq<byte>, b: seq<byte>)
    requires MagicHex(a) == MagicHex(b)
    ensures a == b
  {
    MagicHexRoundTrip(a);
    MagicHexRoundTrip(b);
  }

  /** The rendering of the first k bytes is a prefix of the whole rendering, followed by a
      space when more bytes follow. */
  lemma {:induction false} MagicHexPrefix(bs: seq<byte>, k: nat)
    requires 1 <= k <= |bs|
    ensures MagicHex(bs)[..3 * k - 1] == MagicHex(bs[..k])
    ensures k < |bs| ==> MagicHex(bs)[3 * k - 1] == ' '
  {
    if k > 1 {
      MagicHexPrefix(bs[1..], k - 1);
      assert bs[1..][..k - 1] == bs[..k][1..];
      assert bs[..k][0] == bs[0];
    }
  }

  // ---------------------------------------------------------------------------------------
  // The detection record

  /** The dictionary returned by `analyze`: a full record, or the error record of the
      exception handler, which has only a path, a message and `is_suspicious = False`. */
  datatype Record =
    | Detection(filePath: string, fileName: string, fileSize: Size, magicBytes: string,
                mimeType: string, description: string, trueExtension: string,
                currentExtension: string, isSuspicious: bool)
    | Failure(filePath: string, error: string)
  {
    /** `info.get('is_suspicious')` */
    predicate Suspicious() {
      Detection? && isSuspicious
    }
  }

  /** The shown extension: the extracted one, or "(none)" when there is none. */
  function ShownExtension(ext: string): (r: string)
    ensures r != ""
    ensures ext != "" ==> r == ext
    ensures ext == "" ==> r == "(none)"
  {
    if ext == "" then "(none)" else ext
  }

  /** `analyze(file_path)`, with everything read from the file given by `probe`. */
  function Analyze(path: string, probe: Probe): (r: Record)
    ensures r.filePath == path
    ensures r.Failure? <==> probe.Unreadable?
    ensures probe.Unreadable? ==> r.error == probe.error
    ensures r.Detection? ==>
      && r.fileName == Basename(path)
      && r.trueExtension == MimeToExtension(probe.mime)
      && r.magicBytes == MagicHex(LeadingBytes(probe.content))
      && r.fileSize == Sized(probe.size)
      && r.mimeType == probe.mime
      && r.description == probe.description
      && r.currentExtension == ShownExtension(CurrentExtension(Basename(path)))
    // a suspicious verdict is always backed by a claimed, non-benign, contradicted extension
    ensures r.Suspicious() ==>
      var ext := CurrentExtension(Basename(path));
      ext != "" && ext !in BenignExtensions && ext != r.trueExtension
      && r.currentExtension == ext
    // no extension: nothing is claimed, so nothing is contradicted
    ensures r.Detection? && CurrentExtension(Basename(path)) == "" ==>
      !r.isSuspicious && r.currentExtension == "(none)"
  {
    match probe
    case Unreadable(error) => Failure(path, error)
    case Readable(size, content, mime, description) =>
      var name := Basename(path);
      var trueExt := MimeToExtension(mime);
      var currentExt := CurrentExtension(name);
      LowerIdempotent(currentExt);
      KnownExtensionsAreLower(trueExt);
      Detection(path, name, Sized(size), MagicHex(LeadingBytes(content)), mime, description,
                trueExt, ShownExtension(currentExt), IsSuspicious(currentExt, trueExt))
  }

  /** For a readable file, the verdict is exactly: an extension is claimed, it is not benign,
      and it differs from the extension the content implies. */
  lemma SuspiciousIff(path: string, probe: Probe)
    requires probe.Readable?
    ensures var ext := CurrentExtension(Basename(path));
      Analyze(path, probe).Suspicious() <==>
        ext != "" && ext !in BenignExtensions && ext != MimeToExtension(probe.mime)
  {
    var ext := CurrentExtension(Basename(path));
    var trueExt := MimeToExtension(probe.mime);
    assert Analyze(path, probe).isSuspicious == IsSuspicious(ext, trueExt);
    LowerIdempotent(ext);
    KnownExtensionsAreLower(trueExt);
    LowerIdempotent(trueExt);
  }

  /** The verdict on a plain file name "stem.ext": suspicious exactly when `ext` is not benign
      and differs from the extension the content implies. */
  lemma NamedFileVerdict(stem: string, ext: string, probe: Probe)
    requires probe.Readable?
    requires |stem| > 0 && stem[0] != '.' && '/' !in stem
    requires ext != "" && '.' !in ext && '/' !in ext && IsLower(ext)
    ensures Analyze(stem + "." + ext, probe).Suspicious() <==>
      ext !in BenignExtensions && ext != MimeToExtension(probe.mime)
  {
    ExtensionNamed(stem, ext);
    SuspiciousIff(stem + "." + ext, probe);
  }

  /** "bin" still takes part in the comparison: content that maps to no table entry is
      reported under any claimed extension ("a.jpg") except "bin" itself ("data.bin") and the
      benign ones. */
  lemma UnknownContentVerdicts(stem: string, ext: string, probe: Probe)
    requires probe.Readable? && probe.mime !in MimeTable
    requires |stem| > 0 && stem[0] != '.' && '/' !in stem
    requires ext != "" && '.' !in ext && '/' !in ext && IsLower(ext)
    ensures Analyze(stem + "." + ext, probe).Suspicious() <==>
      ext != "bin" && ext !in BenignExtensions
  {
    NamedFileVerdict(stem, ext, probe);
  }

  /** The extension of a plain name "stem.ext" with lower-case `ext`. */
  lemma ExtensionNamed(stem: string, ext: string)
    requires |stem| > 0 && stem[0] != '.' && '.' !in ext && IsLower(ext)
    requires '/' !in stem && '/' !in ext
    ensures CurrentExtension(Basename(stem + "." + ext)) == ext
  {
    var name := stem + "." + ext;
    assert Basename(name) == name by {
      BasenameOfName(name);
    }
    assert CurrentExtension(name) == ext by {
      ExtensionOf(stem, ext);
      LowerIdempotent(ext);
    }
  }

  // ---------------------------------------------------------------------------------------
  // Size unit selection

  /** `_format_size`: divides by 1024 while the value is at least 1024, for at most four
      units, and reports the quotient with its unit. */
  method FormatSize(size: nat) returns (r: Size)
    ensures r == Sized(size)
  {
    var value: real := size as real;
    var i := 0;
    ghost var scale: nat := 1;
    while i < 4
      invariant 0 <= i <= 4
      invariant scale == Scale(UnitAt(i))
      invariant value * scale as real == size as real
      invariant i > 0 ==> value >= 1.0
    {
      if value < 1024.0 {
        SizedUnique(size, UnitAt(i), value);
        return Size(value, UnitAt(i));
      }
      value := value / 1024.0;
      scale := scale * 1024;
      i := i + 1;
    }
    SizedUnique(size, TB, value);
    r := Size(value, TB);
  }
}
