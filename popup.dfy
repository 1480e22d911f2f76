/** `PopupManager` (src/popup.py): which records raise an alert, how the alert shortens what
    it shows, and the auto-close countdown. */
module Popup {
  import opened Wrappers
  import opened Files
  import opened Sizes
  import opened Detector

  const Ellipsis := "..."

  /** The shortening used for the file name and the magic bytes: a string longer than `width`
      keeps its first `width - 3` characters and gets "..." instead of the rest. */
  function Shortened(s: string, width: nat): (r: string)
    requires width >= 3
    ensures |s| <= width ==> r == s
    ensures |s| > width ==> |r| == width && r[..width - 3] == s[..width - 3] && r[width - 3..] == Ellipsis
    ensures |r| <= width
  {
    if |s| > width then s[..width - 3] + Ellipsis else s
  }

  /** Shortening twice to the same width is shortening once. */
  lemma ShortenedIdempotent(s: string, width: nat)
    requires width >= 3
    ensures Shortened(Shortened(s, width), width) == Shortened(s, width)
  {
  }

  /** The file name line: at most 40 characters. */
  function ShownName(name: string): (r: string)
    ensures |name| <= 40 ==> r == name
    ensures |name| > 40 ==> |r| == 40 && r[..37] == name[..37] && r[37..] == Ellipsis
  {
    Shortened(name, 40)
  }

  /** The name line of an alert stays the same when its name is shown again. */
  lemma ShownNameIdempotent(name: string)
    ensures ShownName(ShownName(name)) == ShownName(name)
  {
    ShortenedIdempotent(name, 40);
  }

  /** The "DETECTED" line: the first 50 characters of the description, followed by "..."
      exactly when something was cut. */
  function ShownDescription(description: string): (r: string)
    ensures |description| <= 50 ==> r == description
    ensures |description| > 50 ==> |r| == 53 && r[..50] == description[..50] && r[50..] == Ellipsis
    ensures |r| <= 53
  {
    (if |description| > 50 then description[..50] else description)
      + (if |description| > 50 then Ellipsis else "")
  }

  /** The "Magic" line: at most 30 characters. */
  function ShownMagic(magic: string): (r: string)
    ensures |magic| <= 30 ==> r == magic
    ensures |magic| > 30 ==> |r| == 30 && r[..27] == magic[..27] && r[27..] == Ellipsis
  {
    Shortened(magic, 30)
  }

  /** For a detector rendering of `n` leading bytes, the "Magic" line shows the whole
      rendering when n <= 10, and otherwise the first nine bytes, a space and "...". */
  lemma ShownMagicOfBytes(bs: seq<byte>)
    requires |bs| <= MagicLength
    ensures |bs| <= 10 ==> ShownMagic(MagicHex(bs)) == MagicHex(bs)
    ensures |bs| > 10 ==> ShownMagic(MagicHex(bs)) == MagicHex(bs[..9]) + " " + Ellipsis
  {
    if |bs| > 10 {
      LongMagicShown(bs);
    }
  }

  /** The long case of ShownMagicOfBytes. */
  lemma LongMagicShown(bs: seq<byte>)
    requires |bs| > 10
    ensures ShownMagic(MagicHex(bs)) == MagicHex(bs[..9]) + " " + Ellipsis
  {
    var m := MagicHex(bs);
    var r := ShownMagic(m);
    assert r == m[..27] + Ellipsis by {
      assert |r| == 30 && r[..27] == m[..27] && r[27..] == Ellipsis;
      assert r == r[..27] + r[27..];
    }
    MagicSpacePrefix(bs);
  }

  /** Nine rendered bytes and the space after them open the rendering of ten or more. */
  lemma MagicSpacePrefix(bs: seq<byte>)
    requires |bs| > 9
    ensures MagicHex(bs)[..27] == MagicHex(bs[..9]) + " "
  {
    var m := MagicHex(bs);
    MagicHexPrefix(bs, 9);
    assert m[..27] == m[..26] + [m[26]];
  }

  /** What an alert window shows for a record. */
  datatype AlertView = AlertView(fileName: string, detected: string, disguisedAs: string,
                                 actually: string, size: Size, magic: string)

  /** The alert `show_alert` builds for `info`, if any: only suspicious records raise one. */
  function Alert(info: Record): (v: Option<AlertView>)
    ensures v.Some? <==> info.Suspicious()
    ensures v.Some? ==>
      && v.value.fileName == ShownName(info.fileName)
      && v.value.detected == ShownDescription(info.description)
      && v.value.magic == ShownMagic(info.magicBytes)
      && |v.value.fileName| <= 40 && |v.value.detected| <= 53 && |v.value.magic| <= 30
      && v.value.disguisedAs == "." + info.currentExtension
      && v.value.actually == "." + info.trueExtension
      && v.value.size == info.fileSize
  {
    if !info.Suspicious() then None
    else Some(AlertView(ShownName(info.fileName), ShownDescription(info.description),
                        "." + info.currentExtension, "." + info.trueExtension,
                        info.fileSize, ShownMagic(info.magicBytes)))
  }

  /** Seconds the auto-close countdown starts from. */
  const CountdownStart := 10

  /** One `_update_countdown` call: a positive countdown drops by one, zero stays. */
  function Tick(countdown: int): (r: int)
    ensures countdown > 0 ==> r == countdown - 1
    ensures countdown <= 0 ==> r == countdown
  {
    if countdown > 0 then countdown - 1 else countdown
  }

  /** `k` successive `_update_countdown` calls. */
  function Ticks(countdown: int, k: nat): int {
    if k == 0 then countdown else Tick(Ticks(countdown, k - 1))
  }

  /** The labels shown by `k` successive calls from `countdown`, one per call that finds it
      positive. */
  function Labels(countdown: int, k: nat): seq<int> {
    if k == 0 || countdown <= 0 then [] else [countdown] + Labels(countdown - 1, k - 1)
  }

  /** From a non-negative start the countdown falls by one per call down to zero and never
      below it. */
  lemma {:induction false} TicksFloor(countdown: int, k: nat)
    requires countdown >= 0
    ensures Ticks(countdown, k) == if k <= countdown then countdown - k else 0
  {
    if k > 0 {
      TicksFloor(countdown, k - 1);
    }
  }

  /** The calls show `countdown`, `countdown - 1`, ..., down to 1, and nothing once it is 0. */
  lemma {:induction false} LabelsCountDown(countdown: int, k: nat)
    requires countdown >= 0
    ensures |Labels(countdown, k)| == if k <= countdown then k else countdown
    ensures forall i :: 0 <= i < |Labels(countdown, k)| ==> Labels(countdown, k)[i] == countdown - i
  {
    if k > 0 && countdown > 0 {
      LabelsCountDown(countdown - 1, k - 1);
    }
  }

  /** The popup manager. Its one `countdown` field is shared by every alert it opens. */
  class PopupManager {
    var countdown: int

    /** The countdown a manager can hold: what a start value of 10 can tick down to. */
    ghost predicate Valid()
      reads this
    {
      0 <= countdown <= CountdownStart
    }

    constructor ()
      ensures countdown == 0 && Valid()
    {
      countdown := 0;
    }

    /** `_update_countdown`: shows the positive countdown and lowers it by one. */
    method UpdateCountdown() returns (shown: Option<int>)
      requires Valid()
      modifies this
      ensures Valid()
      ensures countdown == Tick(old(countdown))
      ensures shown == if old(countdown) > 0 then Some(old(countdown)) else None
    {
      if countdown > 0 {
        shown := Some(countdown);
        countdown := countdown - 1;
      } else {
        shown := None;
      }
    }

    /** `show_alert(info)`: nothing for a record that is not suspicious; otherwise the alert
        opens, the countdown restarts at 10 and its first label is shown at once. */
    method ShowAlert(info: Record) returns (view: Option<AlertView>, shown: Option<int>)
      requires Valid()
      modifies this
      ensures Valid()
      ensures view == Alert(info)
      ensures !info.Suspicious() ==> countdown == old(countdown) && shown == None
      ensures info.Suspicious() ==> countdown == CountdownStart - 1 && shown == Some(CountdownStart)
    {
      if !info.Suspicious() {
        return None, None;
      }
      view := Alert(info);
      countdown := CountdownStart;
      shown := UpdateCountdown();
    }
  }
}
