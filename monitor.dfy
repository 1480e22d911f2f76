/** `DownloadHandler` and `FileMonitor` (src/monitor.py): which file-system events reach the
    detector, and which detection records reach the registered callback. */
module Monitor {
  import opened Text
  import opened Files
  import opened Detector
  import opened Config

  /** A watchdog event: the path it concerns and whether that path is a directory. */
  datatype FileEvent = FileEvent(srcPath: string, isDirectory: bool)

  /** `any(file_path.endswith(ext) for ext in Config.IGNORE_EXTENSIONS)`: a case-sensitive
      suffix match. */
  predicate Ignored(path: string) {
    exists i :: 0 <= i < |IgnoreExtensions| && EndsWith(path, IgnoreExtensions[i])
  }

  /** What one `_process_file(path)` hands to the callback: the analysed record when the path
      is not ignored, the record is suspicious and a callback is registered; nothing otherwise. */
  function Forwarded(path: string, probe: Probe, hasCallback: bool): (calls: seq<Record>)
    ensures |calls| <= 1
    ensures calls != [] ==> calls[0].Suspicious()
  {
    if Ignored(path) then []
    else
      var info := Analyze(path, probe);
      if info.Suspicious() && hasCallback then [info] else []
  }

  /** The handler registered with the observer. The callback itself belongs to the
      application; what matters here is whether one is registered, and the ghost logs record
      which paths were analysed and which records the callback received, in order. */
  class DownloadHandler {
    const hasCallback: bool
    ghost var analysed: seq<string>
    ghost var invocations: seq<Record>

    constructor (hasCallback: bool)
      ensures this.hasCallback == hasCallback
      ensures analysed == [] && invocations == []
    {
      this.hasCallback := hasCallback;
      analysed := [];
      invocations := [];
    }

    /** `_process_file(file_path)`, with `probe` what the detector reads from the file. */
    method ProcessFile(path: string, probe: Probe)
      modifies this
      ensures analysed == old(analysed) + (if Ignored(path) then [] else [path])
      ensures invocations == old(invocations) + Forwarded(path, probe, hasCallback)
    {
      var ignored := Ignored(path);
      if !ignored {
        analysed := analysed + [path];
        var info := Analyze(path, probe);
        assert Forwarded(path, probe, hasCallback) == if info.Suspicious() && hasCallback then [info] else [];
        if info.Suspicious() {
          if hasCallback {
            invocations := invocations + [info];
          }
        }
        // an error record and a safe record are only logged to the console
      }
    }

    /** `on_created`: directory events are dropped, file events are processed at once. */
    method OnCreated(event: FileEvent, probe: Probe)
      modifies this
      ensures event.isDirectory ==> analysed == old(analysed) && invocations == old(invocations)
      ensures !event.isDirectory ==>
        && analysed == old(analysed) + (if Ignored(event.srcPath) then [] else [event.srcPath])
        && invocations == old(invocations) + Forwarded(event.srcPath, probe, hasCallback)
    {
      if !event.isDirectory {
        ProcessFile(event.srcPath, probe);
      }
    }

    /** `on_modified`: like `on_created`, after a one-second wait; `probe` is what the file
        looks like once the wait is over. */
    method OnModified(event: FileEvent, probe: Probe)
      modifies this
      ensures event.isDirectory ==> analysed == old(analysed) && invocations == old(invocations)
      ensures !event.isDirectory ==>
        && analysed == old(analysed) + (if Ignored(event.srcPath) then [] else [event.srcPath])
        && invocations == old(invocations) + Forwarded(event.srcPath, probe, hasCallback)
    {
      if !event.isDirectory {
        // time.sleep(1): the wait itself is not modelled
        ProcessFile(event.srcPath, probe);
      }
    }
  }

  /** The callback receives at most one record per event: exactly the record `analyze`
      returned, and only when that record is suspicious and a callback is registered; safe
      and error records are never forwarded. */
  lemma ForwardedIff(path: string, probe: Probe, hasCallback: bool)
    ensures Forwarded(path, probe, hasCallback) == [Analyze(path, probe)] <==>
      !Ignored(path) && hasCallback && Analyze(path, probe).Suspicious()
    ensures Forwarded(path, probe, hasCallback) != [Analyze(path, probe)] ==>
      Forwarded(path, probe, hasCallback) == []
    ensures probe.Unreadable? ==> Forwarded(path, probe, hasCallback) == []
  {
  }

  /** Every ignore-list suffix is a suffix of the path that ends with it. */
  lemma IgnoredSuffix(stem: string, i: nat)
    requires i < |IgnoreExtensions|
    ensures Ignored(stem + IgnoreExtensions[i])
  {
    var p := stem + IgnoreExtensions[i];
    assert p[|p| - |IgnoreExtensions[i]|..] == IgnoreExtensions[i];
  }

  /** A path on the ignore list is never analysed and never reaches the callback, whether it
      comes from a create or a modify event; "download.crdownload" and "photo.jpg.part" are
      two such paths. */
  lemma IgnoredNeverForwarded(path: string, probe: Probe, hasCallback: bool)
    requires Ignored(path)
    ensures Forwarded(path, probe, hasCallback) == []
  {
  }

  /** The default suffixes each reach the ignore filter. */
  lemma DefaultIgnoreExamples()
    ensures Ignored("download.crdownload")
    ensures Ignored("photo.jpg.part")
  {
    IgnoredSuffix("download", 3);
    assert "download" + ".crdownload" == "download.crdownload";
    IgnoredSuffix("photo.jpg", 2);
    assert "photo.jpg" + ".part" == "photo.jpg.part";
  }

  /** The filter is case-sensitive: every ignore suffix ends in a lower-case letter, so a path
      ending in a capital letter passes it. */
  lemma CapitalEndPassesFilter(path: string)
    requires |path| > 0 && IsUpper(path[|path| - 1])
    ensures !Ignored(path)
  {
    forall i | 0 <= i < |IgnoreExtensions|
      ensures !EndsWith(path, IgnoreExtensions[i])
    {
      var ext := IgnoreExtensions[i];
      assert !IsUpper(ext[|ext| - 1]);
      assert 0 < |ext| <= |path| ==> path[|path| - |ext|..][|ext| - 1] == path[|path| - 1];
    }
  }

  /** "X.TMP" passes the filter but is then judged safe, because its extension is lower-cased
      to "tmp" before the verdict; the same holds for "TEMP" and "PART". */
  lemma CapitalTempExtensionIsSafe(stem: string, ext: string, probe: Probe)
    requires |stem| > 0 && stem[0] != '.' && '/' !in stem
    requires ext in ["TMP", "TEMP", "PART"]
    ensures !Ignored(stem + "." + ext)
    ensures !Analyze(stem + "." + ext, probe).Suspicious()
  {
    CapitalExtensionPasses(stem, ext);
    CapitalExtensionBenign(stem, ext);
    BenignNeverSuspicious(stem + "." + ext, probe);
  }

  /** The filter half of CapitalTempExtensionIsSafe. */
  lemma CapitalExtensionPasses(stem: string, ext: string)
    requires ext in ["TMP", "TEMP", "PART"]
    ensures !Ignored(stem + "." + ext)
  {
    var path := stem + "." + ext;
    assert path[|path| - 1] == ext[|ext| - 1];
    CapitalEndPassesFilter(path);
  }

  /** The extension half of CapitalTempExtensionIsSafe. */
  lemma CapitalExtensionBenign(stem: string, ext: string)
    requires |stem| > 0 && stem[0] != '.' && '/' !in stem
    requires ext in ["TMP", "TEMP", "PART"]
    ensures CurrentExtension(Basename(stem + "." + ext)) in BenignExtensions
  {
    var path := stem + "." + ext;
    assert '/' !in ext && '.' !in ext;
    assert Basename(path) == path by { BasenameOfName(path); }
    assert !AllChar(stem, '.');
    ExtensionOf(stem, ext);
    CapitalBenignLowered(ext);
  }

  /** A benign claimed extension is never reported. */
  lemma BenignNeverSuspicious(path: string, probe: Probe)
    requires CurrentExtension(Basename(path)) in BenignExtensions
    ensures !Analyze(path, probe).Suspicious()
  {
  }

  /** The capitalised benign extensions lower-case to benign ones. */
  lemma CapitalBenignLowered(ext: string)
    requires ext in ["TMP", "TEMP", "PART"]
    ensures Lower(ext) in BenignExtensions
  {
    if ext == "TMP" {
      assert Lower(ext) == "tmp";
    } else if ext == "TEMP" {
      assert Lower(ext) == "temp";
    } else {
      assert Lower(ext) == "part";
    }
  }

  // ---------------------------------------------------------------------------------------
  // FileMonitor

  /** `observer.schedule(handler, folder, recursive=False)` records one of these. */
  datatype Watch = Watch(path: string, recursive: bool)

  /** The watches `start` schedules for `folders`, given which of them exist. */
  function Scheduled(folders: seq<string>, present: string -> bool): (ws: seq<Watch>)
    ensures |ws| <= |folders|
    ensures forall w :: w in ws ==> !w.recursive && w.path in folders && present(w.path)
    ensures forall f :: f in folders && present(f) ==> Watch(f, false) in ws
  {
    if folders == [] then []
    else
      var last := folders[|folders| - 1];
      Scheduled(folders[..|folders| - 1], present) + (if present(last) then [Watch(last, false)] else [])
  }

  /** Scheduling keeps the configured order: the watches for a list are those for its first
      part followed by those for the rest. */
  lemma {:induction false} ScheduledAppend(a: seq<string>, b: seq<string>, present: string -> bool)
    ensures Scheduled(a + b, present) == Scheduled(a, present) + Scheduled(b, present)
  {
    if b != [] {
      var b' := b[..|b| - 1];
      assert (a + b)[..|a + b| - 1] == a + b';
      ScheduledAppend(a, b', present);
    } else {
      assert a + b == a;
    }
  }

  /** When every folder exists, each is watched, non-recursively, in configured order. */
  lemma {:induction false} ScheduledAllExist(folders: seq<string>, present: string -> bool)
    requires forall f :: f in folders ==> present(f)
    ensures |Scheduled(folders, present)| == |folders|
    ensures forall i :: 0 <= i < |folders| ==> Scheduled(folders, present)[i] == Watch(folders[i], false)
  {
    if folders != [] {
      var init := folders[..|folders| - 1];
      assert forall f :: f in init ==> f in folders;
      ScheduledAllExist(init, present);
      var ws := Scheduled(folders, present);
      assert ws == Scheduled(init, present) + [Watch(folders[|folders| - 1], false)];
      forall i | 0 <= i < |folders|
        ensures ws[i] == Watch(folders[i], false)
      {
        if i < |init| {
          assert ws[i] == Scheduled(init, present)[i];
          assert init[i] == folders[i];
        }
      }
    }
  }

  /** `FileMonitor`: the observer's scheduled watches, whether its thread was ever started
      and whether it runs. */
  class FileMonitor {
    const handler: DownloadHandler
    var watches: seq<Watch>
    var started: bool
    var running: bool

    /** Before the first start nothing is scheduled and nothing runs; a running observer was
        started. */
    ghost predicate Valid()
      reads this
    {
      && (!started ==> watches == [] && !running)
      && (running ==> started)
    }

    constructor (hasCallback: bool)
      ensures fresh(handler) && handler.hasCallback == hasCallback
      ensures handler.analysed == [] && handler.invocations == []
      ensures watches == [] && !started && !running
      ensures Valid()
    {
      handler := new DownloadHandler(hasCallback);
      watches := [];
      started := false;
      running := false;
    }

    /** `start`: schedules each configured folder that exists (missing ones are skipped), in
        order, then starts the observer thread. A thread can be started only once, so a
        monitor that was ever started cannot be started again. */
    method Start(config: FolderList, present: string -> bool)
      requires Valid() && !started
      modifies this
      ensures Valid() && started && running
      ensures watches == Scheduled(config.folders, present)
    {
      var folders := config.folders;
      for i := 0 to |folders|
        invariant watches == Scheduled(folders[..i], present)
      {
        assert folders[..i + 1][..i] == folders[..i];
        if present(folders[i]) {
          watches := watches + [Watch(folders[i], false)];
        }
      }
      assert folders[..|folders|] == folders;
      started := true;
      running := true;
    }

    /** `stop`: stops the observer thread, which unschedules every watch as it stops, and
        waits for it; joining a thread that was never started raises, so the monitor must have
        been started. */
    method Stop()
      requires Valid() && started
      modifies this
      ensures Valid() && started && !running && watches == []
    {
      running := false;
      watches := [];
    }
  }
}
