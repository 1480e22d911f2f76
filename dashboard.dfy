/** The statistics kept by `Dashboard` (src/dashboard.py): detection counters and history,
    uptime, the integer state of the scanner animation, and the monitored-folder list. */
module Dashboard {
  import opened Detector
  import opened Config

  /** Number of suspicious records in a detection history. */
  function CountSuspicious(history: seq<Record>): (n: nat)
    ensures n <= |history|
    ensures n == 0 <==> forall i :: 0 <= i < |history| ==> !history[i].Suspicious()
  {
    if history == [] then 0
    else CountSuspicious(history[..|history| - 1]) + (if history[|history| - 1].Suspicious() then 1 else 0)
  }

  /** The threats in a history are those of its parts. */
  lemma {:induction false} CountSuspiciousAppend(a: seq<Record>, b: seq<Record>)
    ensures CountSuspicious(a + b) == CountSuspicious(a) + CountSuspicious(b)
  {
    if b == [] {
      assert a + b == a;
    } else {
      var b' := b[..|b| - 1];
      assert (a + b)[..|a + b| - 1] == a + b';
      CountSuspiciousAppend(a, b');
    }
  }

  /** `s` has no repeated element. */
  predicate NoDuplicates<T(==)>(s: seq<T>) {
    forall i, j :: 0 <= i < j < |s| ==> s[i] != s[j]
  }

  /** Hours, minutes and seconds of the uptime display. */
  datatype Clock = Clock(hours: int, minutes: int, seconds: int)

  /** The uptime arithmetic of `update_stats_display` and `update_stats`, for `elapsed` whole seconds (negative
      if the wall clock went back); Python's `//` and `%` by a positive divisor agree with
      Dafny's. */
  function Uptime(elapsed: int): (c: Clock)
    ensures c.hours * 3600 + c.minutes * 60 + c.seconds == elapsed
    ensures 0 <= c.minutes < 60 && 0 <= c.seconds < 60
    ensures elapsed >= 0 ==> c.hours >= 0
  {
    Clock(elapsed / 3600, (elapsed % 3600) / 60, elapsed % 60)
  }

  /** Those three bounds leave no choice: any decomposition satisfying them is Uptime's. */
  lemma UptimeUnique(elapsed: int, c: Clock)
    requires c.hours * 3600 + c.minutes * 60 + c.seconds == elapsed
    requires 0 <= c.minutes < 60 && 0 <= c.seconds < 60
    ensures c == Uptime(elapsed)
  {
    var u := Uptime(elapsed);
    var r := c.minutes * 60 + c.seconds;
    var ru := u.minutes * 60 + u.seconds;
    assert 0 <= r < 3600 && 0 <= ru < 3600;
    assert (c.hours - u.hours) * 3600 == ru - r;
    assert c.hours == u.hours;
    assert (c.minutes - u.minutes) * 60 == u.seconds - c.seconds;
  }

  /** One frame of `animate_scanner`: the two angles advance by 5 and 2 degrees modulo 360;
      the pulse grows or shrinks by 2 and turns round above 50 or below 0. */
  datatype Animation = Animation(scanAngle: int, globeRotation: int, pulseSize: int, pulseDirection: int)
  {
    /** Bounds that every state reached from the start (all zero, growing pulse) meets; some
        states within them, such as a scan angle of 3, are never reached. */
    predicate Valid() {
      && 0 <= scanAngle < 360
      && 0 <= globeRotation < 360
      && 0 <= pulseSize <= 52 && pulseSize % 2 == 0
      && (pulseDirection == 1 || pulseDirection == -1)
      && (pulseSize > 50 ==> pulseDirection == -1)
    }
  }

  /** The animation fields as `__init__` sets them, before the first frame. */
  const AnimationStart := Animation(0, 0, 0, 1)

  /** The next animation state. */
  function Step(a: Animation): (b: Animation)
    requires a.Valid()
    ensures b.Valid()
  {
    var pulse := a.pulseSize + 2 * a.pulseDirection;
    var (pulse', direction') :=
      if pulse > 50 then (pulse, -1)
      else if pulse < 0 then (0, 1)
      else (pulse, a.pulseDirection);
    Animation((a.scanAngle + 5) % 360, (a.globeRotation + 2) % 360, pulse', direction')
  }

  /** The animation keeps its bounds over any number of frames. */
  lemma {:induction false} StepsValid(a: Animation, n: nat)
    requires a.Valid()
    ensures Steps(a, n).Valid()
    ensures Steps(a, n).scanAngle == (a.scanAngle + 5 * n) % 360
  {
    if n > 0 {
      StepsValid(a, n - 1);
      var b := Steps(a, n - 1);
      assert Steps(a, n) == Step(b);
      AngleShift(a.scanAngle + 5 * (n - 1), 5);
    }
  }

  /** Advancing an angle already reduced modulo 360 is advancing it and then reducing. */
  lemma AngleShift(x: int, d: int)
    ensures (x % 360 + d) % 360 == (x + d) % 360
  {
    var q := x / 360;
    assert x + d == 360 * q + (x % 360 + d);
  }

  /** `n` frames of the animation. */
  function Steps(a: Animation, n: nat): (b: Animation)
    requires a.Valid()
  {
    if n == 0 then a else Step(Steps(a, n - 1))
  }

  class Dashboard {
    var detectionHistory: seq<Record>
    var filesScanned: int
    var threatsFound: int
    var safeFiles: int
    var animation: Animation
    /** `Config.MONITOR_FOLDERS`, shared with the file monitor. */
    const config: FolderList

    /** The relations every operation keeps: the threat count is the number of suspicious
        records in the history, every other record was counted as safe, and the animation
        stays in bounds. */
    ghost predicate Valid()
      reads this
    {
      && threatsFound == CountSuspicious(detectionHistory)
      && safeFiles == |detectionHistory| - threatsFound
      && animation.Valid()
    }

    /** Every scanned file has one history entry and was counted once, as threat or safe. */
    ghost predicate Balanced()
      reads this
    {
      filesScanned == threatsFound + safeFiles == |detectionHistory|
    }

    /** `__init__`: the counters start at zero, the history empty and the animation at
        rest; `start_animations` then runs the first frame at once. */
    constructor (config: FolderList)
      ensures this.config == config
      ensures detectionHistory == [] && filesScanned == 0 && threatsFound == 0 && safeFiles == 0
      ensures animation == Step(AnimationStart) == Animation(5, 2, 2, 1)
      ensures Valid() && Balanced()
    {
      this.config := config;
      detectionHistory := [];
      filesScanned, threatsFound, safeFiles := 0, 0, 0;
      animation := AnimationStart;
      new;
      // start_animations(): the first animate_scanner() call
      AnimateScanner();
    }

    /** `add_detection_log(file_info)`. The record is appended to the history, then counted
        as a threat (which also sets the pulse to 30) or as safe. An error record has no
        'file_name', so the status line raises KeyError right after it was counted as safe,
        before `files_scanned` is raised: `completed` is false then. */
    method AddDetectionLog(info: Record) returns (completed: bool)
      requires Valid()
      modifies this
      ensures Valid()
      ensures detectionHistory == old(detectionHistory) + [info]
      ensures threatsFound == old(threatsFound) + (if info.Suspicious() then 1 else 0)
      ensures safeFiles == old(safeFiles) + (if info.Suspicious() then 0 else 1)
      ensures completed == info.Detection?
      ensures filesScanned == old(filesScanned) + (if completed then 1 else 0)
      ensures animation == if info.Suspicious() then old(animation).(pulseSize := 30) else old(animation)
      ensures old(Balanced()) && completed ==> Balanced()
    {
      detectionHistory := detectionHistory + [info];
      assert detectionHistory[..|detectionHistory| - 1] == old(detectionHistory);
      if info.Suspicious() {
        threatsFound := threatsFound + 1;
        animation := animation.(pulseSize := 30);
      } else {
        safeFiles := safeFiles + 1;
        if info.Failure? {
          return false;
        }
      }
      filesScanned := filesScanned + 1;
      completed := true;
    }

    /** `clear_log`, when the user confirms: the history and the threat and safe counts are
        reset, `files_scanned` is kept. */
    method ClearLog(confirmed: bool)
      requires Valid()
      modifies this
      ensures Valid()
      ensures confirmed ==> detectionHistory == [] && threatsFound == 0 && safeFiles == 0
      ensures !confirmed ==>
        && detectionHistory == old(detectionHistory)
        && threatsFound == old(threatsFound) && safeFiles == old(safeFiles)
      ensures filesScanned == old(filesScanned) && animation == old(animation)
    {
      if confirmed {
        detectionHistory := [];
        threatsFound := 0;
        safeFiles := 0;
      }
    }

    /** `scan_complete`: the simulated manual scan counts five more files and nothing else. */
    method ScanComplete()
      requires Valid()
      modifies this
      ensures Valid()
      ensures filesScanned == old(filesScanned) + 5
      ensures detectionHistory == old(detectionHistory) && threatsFound == old(threatsFound)
      ensures safeFiles == old(safeFiles) && animation == old(animation)
    {
      filesScanned := filesScanned + 5;
    }

    /** `animate_scanner`: one frame. */
    method AnimateScanner()
      requires Valid()
      modifies this
      ensures Valid()
      ensures animation == Step(old(animation))
      ensures detectionHistory == old(detectionHistory) && filesScanned == old(filesScanned)
      ensures threatsFound == old(threatsFound) && safeFiles == old(safeFiles)
    {
      var a := animation;
      var scanAngle := (a.scanAngle + 5) % 360;
      var globeRotation := (a.globeRotation + 2) % 360;
      var pulseSize := a.pulseSize + 2 * a.pulseDirection;
      var pulseDirection := a.pulseDirection;
      if pulseSize > 50 {
        pulseDirection := -1;
      } else if pulseSize < 0 {
        pulseDirection := 1;
        pulseSize := 0;
      }
      animation := Animation(scanAngle, globeRotation, pulseSize, pulseDirection);
    }

    /** `add_monitor_folder`, with `folder` the chosen directory ("" when the dialog is
        cancelled): it is appended unless it is already listed. */
    method AddMonitorFolder(folder: string)
      modifies config
      ensures config.folders ==
        if folder != "" && folder !in old(config.folders) then old(config.folders) + [folder]
        else old(config.folders)
      ensures NoDuplicates(old(config.folders)) ==> NoDuplicates(config.folders)
    {
      if folder != "" {
        if folder !in config.folders {
          config.folders := config.folders + [folder];
        }
      }
    }
  }
}
