/** The update workflow controller of the web view (src/components/UpdateManager.tsx).
    Each asynchronous handler is split into the step that runs when it is called
    and the step that runs when the backend's reply arrives; timers are steps of
    their own. Notifications and dialogs are recorded in an event list. */
module UpdateManager {
  import opened Wrappers
  import opened Text

  // ---------------------------------------------------------------- configuration

  /** The component's properties and their defaults. */
  datatype Props = Props(autoCheck: bool, checkIntervalMinutes: nat, showButton: bool)

  const DefaultProps: Props := Props(true, 60, true)

  const StartupDelayMs: nat := 5000

  function CheckPeriodMs(minutes: nat): nat
  {
    minutes * 60 * 1000
  }

  /** Whether an automatic check starts `t` ms after the component mounted, when it
      is unmounted (and both timers cleared) at `disposedAt`: once after the
      startup delay, then at every multiple of the period. */
  predicate AutoCheckFiresAt(props: Props, t: nat, disposedAt: nat)
    requires props.checkIntervalMinutes > 0
  {
    props.autoCheck && t < disposedAt &&
    (t == StartupDelayMs || (t > 0 && t % CheckPeriodMs(props.checkIntervalMinutes) == 0))
  }

  /** The first automatic check is the startup one, then the hourly one by default. */
  lemma {:induction false} AutoCheckSchedule(props: Props, t: nat, disposedAt: nat)
    requires props.checkIntervalMinutes > 0 && props.autoCheck
    requires StartupDelayMs < disposedAt
    ensures AutoCheckFiresAt(props, StartupDelayMs, disposedAt)
    ensures 0 < t < StartupDelayMs ==> !AutoCheckFiresAt(props, t, disposedAt)
    ensures CheckPeriodMs(DefaultProps.checkIntervalMinutes) == 3_600_000
  {
    if 0 < t < StartupDelayMs {
      assert t < CheckPeriodMs(props.checkIntervalMinutes);
    }
  }

  // ---------------------------------------------------------------- reading the check reply

  const NewVersionMarker: string := "发现新版本"
  /** The literal part of the pattern `/发现新版本: ([\d.]+)/`. */
  const VersionLead: string := NewVersionMarker + ": "
  const UnknownVersion: string := "未知版本"
  const FixedNotes: string := "发现新版本，包含 bug 修复和性能改进"
  const InstalledMarker: string := "更新已安装"

  /** The class `[\d.]`. */
  predicate IsVersionChar(c: char)
  {
    IsDigit(c) || c == '.'
  }

  predicate AllVersionChars(s: string)
  {
    forall k | 0 <= k < |s| :: IsVersionChar(s[k])
  }

  /** The pattern matches at `i`: the literal, then at least one `[\d.]`. */
  predicate VersionMatchAt(text: string, i: int)
  {
    OccursAt(text, VersionLead, i) && i + |VersionLead| < |text| && IsVersionChar(text[i + |VersionLead|])
  }

  /** The leftmost position at or after `from` where the pattern matches. */
  function FirstVersionMatch(text: string, from: nat): (r: Option<nat>)
    ensures r.Some? ==> from <= r.value && VersionMatchAt(text, r.value)
    ensures r.Some? ==> forall j | from <= j < r.value :: !VersionMatchAt(text, j)
    ensures r.None? ==> forall j | from <= j :: !VersionMatchAt(text, j)
    decreases |text| - from
  {
    if from + |VersionLead| >= |text| then None
    else if VersionMatchAt(text, from) then Some(from)
    else FirstVersionMatch(text, from + 1)
  }

  /** The greedy `[\d.]+` run: the longest prefix of `s` made of version characters. */
  function VersionRun(s: string): (r: string)
    ensures |r| <= |s| && r == s[..|r|]
    ensures AllVersionChars(r)
    ensures |r| < |s| ==> !IsVersionChar(s[|r|])
  {
    if s == [] || !IsVersionChar(s[0]) then []
    else [s[0]] + VersionRun(s[1..])
  }

  /** The first capture group of `text.match(/发现新版本: ([\d.]+)/)`, or `None`
      when the pattern does not match. */
  function ExtractVersion(text: string): (r: Option<string>)
    ensures r.Some? <==> exists i :: VersionMatchAt(text, i)
    ensures r.Some? ==> |r.value| > 0 && AllVersionChars(r.value)
    ensures r.Some? ==> exists i :: VersionMatchAt(text, i) && (forall j | 0 <= j < i :: !VersionMatchAt(text, j))
                                    && r.value == VersionRun(text[i + |VersionLead|..])
  {
    match FirstVersionMatch(text, 0)
    case None => None
    case Some(i) => Some(VersionRun(text[i + |VersionLead|..]))
  }

  /** The version shown for a reply carrying the marker: the captured run when
      the pattern matches, and "未知版本" when it does not. */
  function ReportedVersion(text: string): (v: string)
    ensures ExtractVersion(text).Some? ==> v == ExtractVersion(text).value
    ensures ExtractVersion(text).None? ==> v == UnknownVersion
    ensures v == UnknownVersion || (|v| > 0 && AllVersionChars(v))
    ensures (exists i :: VersionMatchAt(text, i)) <==> v != UnknownVersion
  {
    match ExtractVersion(text)
    case Some(v) =>
      assert v[0] != UnknownVersion[0];
      v
    case None => UnknownVersion
  }

  /** A reply with the marker but no digit or dot after it, such as the marker
      alone or "发现新版本: " with nothing after it, is shown as "未知版本". */
  lemma MarkerWithoutVersion(rest: string)
    requires forall p | 0 <= p < |rest| :: !IsVersionChar(rest[p])
    ensures ReportedVersion(NewVersionMarker + rest) == UnknownVersion
  {
    var text := NewVersionMarker + rest;
    forall i | 0 <= i
      ensures !VersionMatchAt(text, i)
    {
      if i + |VersionLead| < |text| {
        assert text[i + |VersionLead|] == rest[i + |VersionLead| - |NewVersionMarker|];
      }
    }
  }

  // ---------------------------------------------------------------- state and events

  datatype UpdateInfo = UpdateInfo(version: string, notes: string, available: bool)

  datatype NoticeKind = InfoNotice | SuccessNotice | ErrorNotice

  datatype UiEvent =
    | Notification(kind: NoticeKind, title: string, description: string)
    | CompletionDialog(title: string, content: string)
    | RestartRequested

  function NewVersionNotice(version: string): UiEvent
  {
    Notification(InfoNotice, "发现新版本", "发现新版本 " + version + "，点击立即更新")
  }

  const SkippedNotice: UiEvent := Notification(InfoNotice, "已跳过更新", "您可以稍后手动检查更新")
  const InstalledDialog: UiEvent := CompletionDialog("更新完成", "更新已成功安装，应用将重启以应用更新")

  /** A snapshot of every field of the controller. */
  datatype ControllerState = ControllerState(
    updateAvailable: bool,
    checking: bool,
    downloading: bool,
    downloadProgress: real,
    updateInfo: Option<UpdateInfo>,
    error: string,
    modalVisible: bool,
    simulators: set<nat>,
    attemptSimulator: nat,
    nextSimulator: nat,
    pendingDialogs: nat,
    openDialogs: nat,
    events: seq<UiEvent>)

  /** The notes field after a successful download reply without the installed
      marker: replaced by the reply if there is an update, otherwise still none. */
  function WithNotes(info: Option<UpdateInfo>, notes: string): (r: Option<UpdateInfo>)
    ensures r.None? <==> info.None?
    ensures r.Some? ==> r.value.version == info.value.version && r.value.available == info.value.available
                        && r.value.notes == notes
  {
    match info
    case None => None
    case Some(i) => Some(i.(notes := notes))
  }

  class UpdateController {
    var updateAvailable: bool
    var checking: bool
    var downloading: bool
    /** The simulated progress, a real number (the source adds `Math.random() * 10`). */
    var downloadProgress: real
    var updateInfo: Option<UpdateInfo>
    var error: string
    var modalVisible: bool
    /** The progress-simulator intervals that are still running, by id. */
    var simulators: set<nat>
    /** The interval started by the most recent download attempt. */
    var attemptSimulator: nat
    var nextSimulator: nat
    /** Completion dialogs whose 1000 ms delay has not yet elapsed. */
    var pendingDialogs: nat
    /** Completion dialogs on screen, not yet acknowledged. */
    var openDialogs: nat
    var events: seq<UiEvent>

    ghost function State(): ControllerState
      reads this
    {
      ControllerState(updateAvailable, checking, downloading, downloadProgress, updateInfo, error,
                      modalVisible, simulators, attemptSimulator, nextSimulator, pendingDialogs,
                      openDialogs, events)
    }

    ghost predicate Valid()
      reads this
    {
      0.0 <= downloadProgress <= 100.0 &&
      forall s | s in simulators :: s < nextSimulator
    }

    /** The state right after mounting. */
    constructor ()
      ensures Valid()
      ensures State() == ControllerState(false, false, false, 0.0, None, "", false, {}, 0, 0, 0, 0, [])
    {
      updateAvailable, checking, downloading, downloadProgress := false, false, false, 0.0;
      updateInfo, error, modalVisible := None, "", false;
      simulators, attemptSimulator, nextSimulator := {}, 0, 0;
      pendingDialogs, openDialogs, events := 0, 0, [];
    }

    /** `checkForUpdates`, up to the backend call: a call while a check is in
        flight returns at once; otherwise the check starts and the error is cleared. */
    method BeginCheck() returns (called: bool)
      requires Valid()
      modifies this
      ensures Valid()
      ensures called == !old(checking)
      ensures checking
      ensures State() == if called then old(State()).(checking := true, error := "") else old(State())
    {
      if checking {
        return false;
      }
      checking := true;
      error := "";
      called := true;
    }

    /** `checkForUpdates`, from the backend's reply on (`Success` for a resolved
        `invoke`, `Failure` for a rejected one); `checking` ends false on every path. */
    method CompleteCheck(reply: Result<string, string>, showResult: bool)
      requires Valid() && checking
      modifies this
      ensures Valid()
      ensures !checking
      ensures State() ==
        match reply
        case Success(text) =>
          if Contains(text, NewVersionMarker) then
            old(State()).(checking := false,
                          updateInfo := Some(UpdateInfo(ReportedVersion(text), FixedNotes, true)),
                          updateAvailable := true, modalVisible := true,
                          events := old(events) + [NewVersionNotice(ReportedVersion(text))])
          else
            old(State()).(checking := false,
                          events := old(events) + if showResult then [Notification(SuccessNotice, "检查更新", text)] else [])
        case Failure(message) =>
          old(State()).(checking := false, error := message,
                        events := old(events) + if showResult then [Notification(ErrorNotice, "检查更新失败", message)] else [])
    {
      match reply {
        case Success(text) =>
          if Contains(text, NewVersionMarker) {
            ShowNewVersion(ReportedVersion(text));
          } else if showResult {
            events := events + [Notification(SuccessNotice, "检查更新", text)];
          }
        case Failure(message) =>
          error := message;
          if showResult {
            events := events + [Notification(ErrorNotice, "检查更新失败", message)];
          }
      }
      checking := false;
    }

    /** A reply that reports a new version: its details are stored, the update
        dialog opens and a notice is queued. */
    method ShowNewVersion(version: string)
      modifies this
      ensures State() == old(State()).(updateInfo := Some(UpdateInfo(version, FixedNotes, true)),
                                       updateAvailable := true, modalVisible := true,
                                       events := old(events) + [NewVersionNotice(version)])
    {
      updateInfo := Some(UpdateInfo(version, FixedNotes, true));
      updateAvailable := true;
      modalVisible := true;
      events := events + [NewVersionNotice(version)];
    }

    /** `downloadAndInstall`, up to the backend call: ignored while a download is in
        flight; otherwise it resets the progress and starts a fresh simulator. */
    method BeginDownload() returns (called: bool)
      requires Valid()
      modifies this
      ensures Valid()
      ensures called == !old(downloading)
      ensures downloading
      ensures called ==> old(nextSimulator) !in old(simulators)
      ensures State() ==
        if called then
          old(State()).(downloading := true, error := "", downloadProgress := 0.0,
                        simulators := old(simulators) + {old(nextSimulator)},
                        attemptSimulator := old(nextSimulator), nextSimulator := old(nextSimulator) + 1)
        else old(State())
    {
      if downloading {
        return false;
      }
      downloading := true;
      error := "";
      downloadProgress := 0.0;
      simulators := simulators + {nextSimulator};
      attemptSimulator := nextSimulator;
      nextSimulator := nextSimulator + 1;
      called := true;
    }

    /** One 500 ms tick of simulator `id`, with `increment` the value of
        `Math.random() * 10`. At 90 or above the interval clears itself. */
    method SimulatorTick(id: nat, increment: real)
      requires Valid()
      requires 0.0 <= increment < 10.0
      modifies this
      ensures Valid()
      ensures old(downloadProgress) <= downloadProgress < old(downloadProgress) + 10.0
      ensures old(downloadProgress) < 100.0 ==> downloadProgress < 100.0
      ensures State() ==
        if id !in old(simulators) then old(State())
        else if old(downloadProgress) >= 90.0 then old(State()).(simulators := old(simulators) - {id})
        else old(State()).(downloadProgress := old(downloadProgress) + increment)
    {
      if id in simulators {
        if downloadProgress >= 90.0 {
          simulators := simulators - {id};
        } else {
          downloadProgress := downloadProgress + increment;
        }
      }
    }

    /** `downloadAndInstall`, from the backend's reply on. A success stops this
        attempt's simulator and sets the progress to 100 whatever the reply says;
        a failure leaves the simulator running and the progress as it was. */
    method CompleteDownload(reply: Result<string, string>)
      requires Valid() && downloading
      modifies this
      ensures Valid()
      ensures !downloading
      ensures old(downloadProgress) <= downloadProgress
      ensures State() ==
        match reply
        case Success(text) =>
          if Contains(text, InstalledMarker) then
            old(State()).(downloading := false, downloadProgress := 100.0,
                          simulators := old(simulators) - {old(attemptSimulator)},
                          pendingDialogs := old(pendingDialogs) + 1)
          else
            old(State()).(downloading := false, downloadProgress := 100.0,
                          simulators := old(simulators) - {old(attemptSimulator)},
                          updateInfo := WithNotes(old(updateInfo), text))
        case Failure(message) =>
          old(State()).(downloading := false, error := message,
                        events := old(events) + [Notification(ErrorNotice, "更新失败", message)])
    {
      match reply {
        case Success(text) =>
          simulators := simulators - {attemptSimulator};
          downloadProgress := 100.0;
          if Contains(text, InstalledMarker) {
            pendingDialogs := pendingDialogs + 1;
          } else {
            updateInfo := WithNotes(updateInfo, text);
          }
        case Failure(message) =>
          error := message;
          events := events + [Notification(ErrorNotice, "更新失败", message)];
      }
      downloading := false;
    }

    /** The 1000 ms delay of a scheduled completion dialog elapses: the dialog shows. */
    method ShowCompletionDialog() returns (shown: bool)
      requires Valid()
      modifies this
      ensures Valid()
      ensures shown == (old(pendingDialogs) > 0)
      ensures State() ==
        if shown then old(State()).(pendingDialogs := old(pendingDialogs) - 1, openDialogs := old(openDialogs) + 1,
                                    events := old(events) + [InstalledDialog])
        else old(State())
    {
      shown := pendingDialogs > 0;
      if shown {
        pendingDialogs := pendingDialogs - 1;
        openDialogs := openDialogs + 1;
        events := events + [InstalledDialog];
      }
    }

    /** OK on a completion dialog: `restart_app` is invoked once; its failure is only
        logged to the console, so it changes nothing here. */
    method AcknowledgeCompletion() returns (acknowledged: bool)
      requires Valid()
      modifies this
      ensures Valid()
      ensures acknowledged == (old(openDialogs) > 0)
      ensures State() ==
        if acknowledged then old(State()).(openDialogs := old(openDialogs) - 1, events := old(events) + [RestartRequested])
        else old(State())
    {
      acknowledged := openDialogs > 0;
      if acknowledged {
        openDialogs := openDialogs - 1;
        events := events + [RestartRequested];
      }
    }

    /** `skipUpdate`: hides the prompt and forgets the update; an in-flight
        download is not cancelled. */
    method SkipUpdate()
      requires Valid()
      modifies this
      ensures Valid()
      ensures State() == old(State()).(modalVisible := false, updateAvailable := false, updateInfo := None,
                                       events := old(events) + [SkippedNotice])
    {
      modalVisible := false;
      updateAvailable := false;
      updateInfo := None;
      events := events + [SkippedNotice];
    }

    /** A click on the new-version notification reopens the prompt, whatever
        happened since (so the prompt can be open with no update info). */
    method ClickNewVersionNotice()
      requires Valid()
      modifies this
      ensures Valid()
      ensures State() == old(State()).(modalVisible := true)
    {
      modalVisible := true;
    }
  }
}
