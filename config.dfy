/** The settings of `Config` (src/config.py) that the modelled code reads. */
module Config {

  /** `IGNORE_EXTENSIONS`: suffixes of paths that are never analysed. */
  const IgnoreExtensions: seq<string> := [".tmp", ".temp", ".part", ".crdownload"]

  /** `Path(dir) / name` for a normalised directory: one '/' between the two, none added
      after the root directory "/". */
  function Join(dir: string, name: string): (r: string)
    ensures |r| == |dir| + |name| + (if dir != [] && dir[|dir| - 1] == '/' then 0 else 1)
    ensures r[..|dir|] == dir && r[|r| - |name|..] == name
    ensures r[|r| - |name| - 1] == '/'
  {
    if dir != [] && dir[|dir| - 1] == '/' then dir + name else dir + "/" + name
  }

  /** `MONITOR_FOLDERS`: a class-level list, read by the file monitor at start and extended in
      place by the dashboard, so it is an object shared by both. */
  class FolderList {
    var folders: seq<string>

    /** The default list: the user's Downloads and Desktop folders, in that order. */
    constructor (home: string)
      ensures folders == [Join(home, "Downloads"), Join(home, "Desktop")]
    {
      folders := [Join(home, "Downloads"), Join(home, "Desktop")];
    }
  }
}
