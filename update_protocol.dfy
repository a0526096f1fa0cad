/** How the backend's update replies (src-tauri/src/lib.rs) and the controller's
    reading of them (src/components/UpdateManager.tsx) fit together, and the
    update scenarios run end to end through both. */
module UpdateProtocol {
  import opened Wrappers
  import opened Text
  import opened Backend
  import opened UpdateManager

  lemma ReplyHeadIsPatternLead()
    ensures NewVersionReplyHead == VersionLead
  {
  }

  /** The version the controller reads back from a new-version reply is the
      leading `[\d.]` run of the version the backend formatted. */
  lemma {:induction false} CheckReplyVersionRoundTrip(version: string)
    requires |VersionRun(version)| > 0
    ensures ExtractVersion(NewVersionReplyHead + version) == Some(VersionRun(version))
  {
    var text := NewVersionReplyHead + version;
    assert text[..|VersionLead|] == VersionLead;
    assert text[|VersionLead|] == version[0];
    assert VersionMatchAt(text, 0);
    assert FirstVersionMatch(text, 0) == Some(0);
    assert text[|VersionLead|..] == version;
  }

  /** For a version made only of digits and dots, the round trip is exact. */
  lemma WellFormedVersionRoundTrip(version: string)
    requires |version| > 0 && AllVersionChars(version)
    ensures ExtractVersion(NewVersionReplyHead + version) == Some(version)
    ensures ReportedVersion(Backend.CheckForUpdates(CheckDone(true, version)).value) == version
  {
    assert VersionRun(version) == version;
    CheckReplyVersionRoundTrip(version);
  }

  lemma NoMarkerInUpToDate()
    ensures !Contains(UpToDateReply, NewVersionMarker)
  {
    var s := UpToDateReply;
    forall i | 0 <= i <= |s| - |NewVersionMarker| ensures !OccursAt(s, NewVersionMarker, i) {
      assert s[i..i + |NewVersionMarker|][0] == s[i];
    }
  }

  /** A successful check reply carries the new-version marker exactly when the
      updater found an update. */
  lemma CheckReplyMarker(check: UpdaterCheck)
    requires Backend.CheckForUpdates(check).Success?
    ensures Contains(Backend.CheckForUpdates(check).value, NewVersionMarker) <==> check.available
  {
    if check.available {
      ContainsPrefix(NewVersionMarker, ": " + check.version);
      assert NewVersionReplyHead + check.version == NewVersionMarker + (": " + check.version);
    } else {
      NoMarkerInUpToDate();
    }
  }

  /** The install reply carries the controller's installed marker; the
      nothing-to-install reply does not. */
  lemma InstallReplyMarkers()
    ensures Contains(InstalledReply, InstalledMarker)
    ensures !Contains(NothingToInstallReply, InstalledMarker)
  {
    assert OccursAt(InstalledReply, InstalledMarker, 0);
    var s := NothingToInstallReply;
    forall i | 0 <= i <= |s| - |InstalledMarker| ensures !OccursAt(s, InstalledMarker, i) {
      assert s[i..i + |InstalledMarker|][0] == s[i];
    }
  }

  /** A successful download reply carries the installed marker exactly when the
      update was installed. */
  lemma DownloadReplyMarker(check: UpdaterCheck, install: InstallStep)
    requires DownloadAndInstallUpdate(check, install).Success?
    ensures Contains(DownloadAndInstallUpdate(check, install).value, InstalledMarker) <==> check.available
  {
    InstallReplyMarkers();
  }

  // ---------------------------------------------------------------- scenarios

  /** The updater finds 2.3.1 during a silent check. */
  method NewVersionFound() returns (info: Option<UpdateInfo>, promptOpen: bool, events: seq<UiEvent>)
    ensures info == Some(UpdateInfo("2.3.1", FixedNotes, true))
    ensures promptOpen
    ensures events == [NewVersionNotice("2.3.1")]
  {
    var c := new UpdateController();
    var called := c.BeginCheck();
    var reply := Backend.CheckForUpdates(CheckDone(true, "2.3.1"));
    CheckReplyMarker(CheckDone(true, "2.3.1"));
    WellFormedVersionRoundTrip("2.3.1");
    c.CompleteCheck(reply, false);
    info, promptOpen, events := c.updateInfo, c.modalVisible, c.events;
  }

  /** The user asks for a check and the application is up to date. */
  method UpToDateOnRequest() returns (info: Option<UpdateInfo>, promptOpen: bool, events: seq<UiEvent>)
    ensures info == None && !promptOpen
    ensures events == [Notification(SuccessNotice, "检查更新", "当前已是最新版本")]
  {
    var c := new UpdateController();
    var called := c.BeginCheck();
    NoMarkerInUpToDate();
    c.CompleteCheck(Backend.CheckForUpdates(CheckDone(false, "")), true);
    info, promptOpen, events := c.updateInfo, c.modalVisible, c.events;
  }

  /** Downloaded while the simulator ticks, installed, acknowledged: the
      progress ends at 100 and the restart is requested exactly once, however
      often the dialog's OK is pressed. */
  method InstallAndRestart() returns (progress: real, downloading: bool, events: seq<UiEvent>)
    ensures progress == 100.0 && !downloading
    ensures events == [InstalledDialog, RestartRequested]
  {
    var c := new UpdateController();
    var called := c.BeginDownload();
    var id := c.attemptSimulator;
    c.SimulatorTick(id, 7.5);
    InstallReplyMarkers();
    c.CompleteDownload(DownloadAndInstallUpdate(CheckDone(true, "2.3.1"), Installed));
    assert c.downloadProgress == 100.0 && c.pendingDialogs == 1 && c.events == [];
    c.SimulatorTick(id, 9.0);
    var shown := c.ShowCompletionDialog();
    var acknowledged := c.AcknowledgeCompletion();
    assert c.openDialogs == 0;
    acknowledged := c.AcknowledgeCompletion();
    progress, downloading, events := c.downloadProgress, c.downloading, c.events;
  }

  /** A failed download keeps the simulated progress, and because the interval
      is not cleared on this path it keeps advancing afterwards. */
  method FailedDownload() returns (atFailure: real, later: real, error: string, downloading: bool)
    ensures atFailure == 4.0 && later == 10.0
    ensures error == "安装更新失败: network" && !downloading
  {
    var c := new UpdateController();
    var called := c.BeginDownload();
    var id := c.attemptSimulator;
    c.SimulatorTick(id, 4.0);
    c.CompleteDownload(DownloadAndInstallUpdate(CheckDone(true, "2.3.1"), InstallError("network")));
    atFailure, error, downloading := c.downloadProgress, c.error, c.downloading;
    c.SimulatorTick(id, 6.0);
    later := c.downloadProgress;
  }
}
