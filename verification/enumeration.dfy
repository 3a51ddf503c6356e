/** `enumerate_v4l2_devices` and `_raise_if_v4l2_not_installed` of
    camera_enumerator/linux.py. Each run of `v4l2-ctl` is not executed but
    given as a parameter: how it ended, and its decoded output when it
    succeeded. */
module Enumeration {
  import opened Wrappers
  import opened CameraRecord
  import opened DeviceList
  import opened FormatList

  /** How one `subprocess.check_output` call ends */
  datatype Run =
    | Output(text: string)         // exit status 0, with the decoded standard output
    | NotFound                     // FileNotFoundError: there is no `v4l2-ctl` executable
    | ExitFailure                  // CalledProcessError: a non-zero exit status
    | OtherError(message: string)  // any other exception, with its message

  const NotInstalledMessage: string := "Error: v4l2-ctl not found. Please install the v4l-utils package."
  const FailedToRunMessage: string := "Error: v4l2-ctl failed to run. Please check your installation."

  /** `_raise_if_v4l2_not_installed`, given how `v4l2-ctl --version` ended:
      the tool being present returns `False`, a missing executable and a
      failing one raise their own messages, and any other exception passes
      through unchanged */
  function CheckInstalled(version: Run): Result<bool> {
    match version
    case Output(_) => Success(false)
    case NotFound => Failure(NotInstalledMessage)
    case ExitFailure => Failure(FailedToRunMessage)
    case OtherError(m) => Failure(m)
  }

  /** The formats of one camera: the `--list-formats-ext` run and its parse,
      or `None` when either raises */
  function FetchFormats(run: Run): Option<seq<Format>> {
    match run
    case Output(text) =>
      (match ParseDeviceResolution(text)
       case Success(fs) => Some(fs)
       case Failure(_) => None)
    case _ => None
  }

  /** The formats fetched for a camera index, `None` when fetching raises */
  type Fetch = int -> Option<seq<Format>>

  /** Fetching through `v4l2-ctl --list-formats-ext /dev/video<index>` */
  function Fetcher(formatsOf: int -> Run): Fetch {
    index => FetchFormats(formatsOf(index))
  }

  /** How many cameras, from the front, receive their formats before the
      first exception */
  function FilledCount(cs: seq<Camera>, fetch: Fetch): (n: nat)
    ensures n <= |cs|
  {
    if |cs| == 0 || fetch(cs[0].index).None? then 0
    else 1 + FilledCount(cs[1..], fetch)
  }

  /** Every fetch before `FilledCount` succeeds, and the one at it (if any) raises */
  lemma {:induction false} FilledCountSpec(cs: seq<Camera>, fetch: Fetch)
    ensures forall i :: 0 <= i < FilledCount(cs, fetch) ==> fetch(cs[i].index).Some?
    ensures FilledCount(cs, fetch) < |cs| ==> fetch(cs[FilledCount(cs, fetch)].index).None?
  {
    if |cs| > 0 && fetch(cs[0].index).Some? {
      var tail := cs[1..];
      FilledCountSpec(tail, fetch);
      var n := FilledCount(tail, fetch);
      assert FilledCount(cs, fetch) == n + 1;
      forall i | 0 < i < n + 1
        ensures fetch(cs[i].index).Some?
      {
        assert cs[i] == tail[i - 1];
      }
      if n + 1 < |cs| {
        assert cs[n + 1] == tail[n];
      }
    }
  }

  /** The loop of `enumerate_v4l2_devices`: each camera in turn is given its
      formats, and the first exception ends the loop, leaving that camera and
      the ones after it as they were */
  function FillFormats(cs: seq<Camera>, fetch: Fetch): (r: seq<Camera>)
    ensures |r| == |cs|
  {
    if |cs| == 0 then []
    else
      match fetch(cs[0].index)
      case None => cs
      case Some(fs) => [cs[0].(formats := fs)] + FillFormats(cs[1..], fetch)
  }

  /** The cameras before the first failure carry their fetched formats and
      nothing else changes; the others are untouched */
  lemma {:induction false} FillFormatsPrefix(cs: seq<Camera>, fetch: Fetch)
    ensures forall i :: 0 <= i < FilledCount(cs, fetch) ==>
              fetch(cs[i].index).Some? && FillFormats(cs, fetch)[i] == cs[i].(formats := fetch(cs[i].index).value)
    ensures forall i :: FilledCount(cs, fetch) <= i < |cs| ==> FillFormats(cs, fetch)[i] == cs[i]
  {
    if |cs| > 0 && fetch(cs[0].index).Some? {
      var fs := fetch(cs[0].index).value;
      var tail := cs[1..];
      var r := FillFormats(cs, fetch);
      var rt := FillFormats(tail, fetch);
      var n := FilledCount(tail, fetch);
      FillFormatsPrefix(tail, fetch);
      assert r == [cs[0].(formats := fs)] + rt;
      assert FilledCount(cs, fetch) == n + 1;
      forall i | 1 <= i < |cs|
        ensures r[i] == rt[i - 1] && cs[i] == tail[i - 1]
      {
      }
    }
  }

  /** `enumerate_v4l2_devices()`, given how the version check, the device
      listing and each camera's format listing end. A failed version check
      propagates: a missing tool and a failing tool raise their own messages,
      and any other exception passes through. Any later exception is caught
      and the cameras held at that point are returned. */
  function Enumerate(version: Run, listing: Run, formatsOf: int -> Run): (r: Result<seq<Camera>>)
    ensures r.Failure? <==> !version.Output?
    ensures version.NotFound? ==> r == Failure(NotInstalledMessage)
    ensures version.ExitFailure? ==> r == Failure(FailedToRunMessage)
    ensures version.OtherError? ==> r == Failure(version.message)
    ensures r.Success? && !listing.Output? ==> r.value == []
    ensures r.Success? && listing.Output? ==> |r.value| == |ParseListDevices(listing.text)|
  {
    match CheckInstalled(version)
    case Failure(m) => Failure(m)
    case Success(_) =>
      match listing
      case Output(text) => Success(FillFormats(ParseListDevices(text), Fetcher(formatsOf)))
      case _ => Success([])
  }

  /** An exception while fetching formats does not empty the result: every
      listed camera is returned, those before the failure with their formats
      and the rest with none */
  lemma EnumeratePartial(version: Run, listing: Run, formatsOf: int -> Run)
    requires version.Output? && listing.Output?
    ensures var cs := ParseListDevices(listing.text);
            var n := FilledCount(cs, Fetcher(formatsOf));
            var r := Enumerate(version, listing, formatsOf).value;
            && |r| == |cs|
            && (forall i :: 0 <= i < |cs| ==> r[i].index == cs[i].index && r[i].name == cs[i].name)
            && (forall i :: 0 <= i < n ==> Some(r[i].formats) == FetchFormats(formatsOf(cs[i].index)))
            && (n < |cs| ==> FetchFormats(formatsOf(cs[n].index)).None?)
            && (forall i :: n <= i < |cs| ==> r[i].formats == [])
  {
    var cs := ParseListDevices(listing.text);
    var fetch := Fetcher(formatsOf);
    var n := FilledCount(cs, fetch);
    var r := Enumerate(version, listing, formatsOf).value;
    assert r == FillFormats(cs, fetch);
    FillFormatsPrefix(cs, fetch);
    FilledCountSpec(cs, fetch);
    ParseListDevicesSpec(listing.text);
    forall i | 0 <= i < |cs|
      ensures r[i].index == cs[i].index && r[i].name == cs[i].name
      ensures i < n ==> Some(r[i].formats) == FetchFormats(formatsOf(cs[i].index))
      ensures n <= i ==> r[i].formats == []
    {
      if i < n {
        assert fetch(cs[i].index) == FetchFormats(formatsOf(cs[i].index));
        assert r[i] == cs[i].(formats := fetch(cs[i].index).value);
      } else {
        assert r[i] == cs[i];
      }
    }
    if n < |cs| {
      assert fetch(cs[n].index) == FetchFormats(formatsOf(cs[n].index));
    }
  }

  /** When every format listing succeeds, every camera gets its formats */
  lemma EnumerateComplete(version: Run, listing: Run, formatsOf: int -> Run)
    requires version.Output? && listing.Output?
    requires forall i :: 0 <= i < |ParseListDevices(listing.text)| ==>
               FetchFormats(formatsOf(ParseListDevices(listing.text)[i].index)).Some?
    ensures forall i :: 0 <= i < |ParseListDevices(listing.text)| ==>
              Some(Enumerate(version, listing, formatsOf).value[i].formats)
              == FetchFormats(formatsOf(ParseListDevices(listing.text)[i].index))
  {
    var cs := ParseListDevices(listing.text);
    var fetch := Fetcher(formatsOf);
    FilledCountSpec(cs, fetch);
    assert FilledCount(cs, fetch) == |cs|;
    EnumeratePartial(version, listing, formatsOf);
  }
}
