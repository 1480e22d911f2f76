/** What the application learns from the file system and from libmagic, taken as inputs. */
module Files {

  type byte = x: int | 0 <= x < 256

  /** What reading one path yields at the moment it is analysed: either its size, its content
      and libmagic's MIME type and description, or the message of the exception raised by
      `os.path.getsize`, `open`/`read` or libmagic. */
  datatype Probe =
    | Readable(size: nat, content: seq<byte>, mime: string, description: string)
    | Unreadable(error: string)

  /** `os.path.basename` (POSIX): the part after the last '/'. */
  function Basename(path: string): (r: string)
    ensures '/' !in r
    ensures |r| <= |path| && path[|path| - |r|..] == r
    ensures |r| < |path| ==> path[|path| - |r| - 1] == '/'
  {
    if |path| == 0 then ""
    else if path[|path| - 1] == '/' then ""
    else Basename(path[..|path| - 1]) + [path[|path| - 1]]
  }

  /** A path without a separator is its own base name. */
  lemma {:induction false} BasenameOfName(path: string)
    requires '/' !in path
    ensures Basename(path) == path
  {
    if |path| > 0 {
      BasenameOfName(path[..|path| - 1]);
      assert path[..|path| - 1] + [path[|path| - 1]] == path;
    }
  }
}
