# A model of the tauri-demo update workflow, release scripts and user list

This project models the core of a Tauri desktop demo: a Rust backend (`src-tauri/src/lib.rs`), a React web view, and three Node release scripts. It proves properties of that model in Dafny.

What is modelled:

- **Backend commands.** `greet`, `process_user`, `divide_numbers`, `start_progress_task`, `get_users`, `manage_window` and the two updater commands are pure functions (module `Backend`). The updater commands take the plugin's outcome as a parameter (`UpdaterCheck`, `InstallStep`) and return the exact reply strings the backend sends.
- **Update controller.** `src/components/UpdateManager.tsx` is the class `UpdateManager.UpdateController`, and its fields are the component's state hooks.
  - Each asynchronous handler is split into two methods: one for what runs when it is called (`BeginCheck`, `BeginDownload`), one for what runs when the backend's reply arrives (`CompleteCheck`, `CompleteDownload`).
  - Timers are methods of their own: the progress simulator tick and the 1000 ms delay of the completion dialog.
  - Notifications, dialogs and the restart request are appended to an event list.
  - Module `UpdateProtocol` connects the backend's reply strings to the controller's reading of them. Four scenario methods run the controller against concrete backend replies.
- **Scripts.** `scripts/update-version.js`, `scripts/release.js` and `scripts/create-tag.js` are modules `UpdateVersion`, `Release` and `CreateTag`.
  - Shell commands are not run. Each command goes to an `Exec` oracle, where `None` means `execSync` threw and `Some(out)` is the trimmed output.
  - A run is described by the commands it issued, in order, and by how it ended (`Exit(1)` or `Finished`).
  - The three manifests `update-version.js` rewrites are fields of the class `UpdateVersion.Manifests`.
- **User list.** The Redux slice `src/store/slices/userSlice.ts` is the class `UserSlice.UserStore`, with one method per reducer. The list logic of `src/pages/UserManagement.tsx` is the class `UserManagement.UserPage`, which holds the page's two hooks and the store it dispatches to.

Inputs that come from outside the program become parameters:
- the updater plugin's outcome;
- `Math.random() * 10`, as the tick increment (any real in `[0, 10)`);
- `Date.now()`, as the new user's id;
- the form's validated values, with `None` meaning validation failed;
- the output and success of each shell command;
- the version that `package.json` holds after the bump.

Behaviour modelled as the code has it, where one would expect otherwise:

- **Download progress on success.** Any successful download reply first sets the progress to 100, even when the reply is "没有可用更新" (UpdateManager.tsx:106-107).
- **Simulator left running on failure.** A failed download does not clear the progress simulator's interval: only a simulator tick at 90 or more stops it (UpdateManager.tsx:94-102, 123-133).
- **Install reply text.** The backend's reply after an install is "更新已安装，应用将重启" (lib.rs:274). The front end only looks for the marker "更新已安装".
- **Skip-build flag alone.** `node scripts/release.js --skip-build` reads the flag as the version type and rejects it before running anything (release.js:41-46).
- **Short versions.** A current version with fewer than three parts is bumped without complaint. Only a mode that reads a missing part puts `NaN` in the result: "1.2" gives "2.0.0" with major and "1.3.0" with minor, but "1.2.NaN" with patch. "1" with patch gives "1.undefined.NaN".
- **Reseeding.** The seeding effect runs whenever the list's length changes. Deleting the last user therefore brings the three sample users back.
- **Edit mode persists.** OK and Cancel close the dialog but do not reset `editingUser`.

## Model

| member | source | states |
|---|---|---|
| Backend.GreetRoundTrip | src-tauri/src/lib.rs:25-50 | The greeting puts the name between the fixed head and tail, so the name can be read back from it exactly. |
| Text.Contains | src/components/UpdateManager.tsx:43 | `s.includes(t)`: some position of `s` starts an occurrence of `t`. A text is never found in a shorter one, and a prefix is always found. |
| Text.Split | scripts/update-version.js:28 | `s.split(sep)`: at least one piece, and no piece contains the separator. |
| Backend.Greet | src-tauri/src/lib.rs:43 | The reply is "Hello, " + the name + "! You've been greeted from Rust!", with the name unchanged in the middle. |
| Backend.ToUpper | src-tauri/src/lib.rs:70 | Upper-casing keeps the length and maps each character through the ASCII upper-case mapping. |
| Backend.ToLower | src-tauri/src/lib.rs:71 | Lower-casing keeps the length and maps each character through the ASCII lower-case mapping. |
| Backend.ProcessUser | src-tauri/src/lib.rs:54-85 | The reply succeeds with "User processed successfully". The user keeps id and age, its name is the upper-cased input name and its e-mail the lower-cased input e-mail, so the name has no lower-case letter and the e-mail no upper-case letter. |
| Backend.ProcessUserIdempotent | src-tauri/src/lib.rs:68-73 | Processing an already processed user gives the same reply again. |
| Backend.DivideNumbers | src-tauri/src/lib.rs:129-146 | The result is an error exactly when the divisor is zero, with "Division by zero is not allowed". Otherwise the quotient times the divisor is the dividend. |
| Backend.StartProgressTask | src-tauri/src/lib.rs:150-177 | 102 events: a progress update i with "Processing step i/100" for i = 0..100, then the completion event. The reply is the fixed "Progress task started" response. |
| Backend.GetUsers | src-tauri/src/lib.rs:181-193 | A successful reply with three users whose ids are 1, 2 and 3. |
| Backend.ParseWindowActionExact | src-tauri/src/lib.rs:198-212 | An action parses to a window operation exactly when it is that operation's name. |
| Backend.ManageWindow | src-tauri/src/lib.rs:197-219 | The reply always succeeds. Its data is "Window minimized", "Window maximized" or "Window closed" for those three actions, and "Unknown action" exactly when the action is none of them. |
| Backend.CheckForUpdates | src-tauri/src/lib.rs:225-256 | Success exactly when the updater checked. The reply is "发现新版本: " + version when an update is available and "当前已是最新版本" otherwise. Errors are "检查更新失败: " + cause, or "更新器未初始化，请检查配置". |
| Backend.DownloadAndInstallUpdate | src-tauri/src/lib.rs:260-296 | Success exactly when the check succeeded and, if there was an update, the install did too. Replies are "更新已安装，应用将重启" and "没有可用更新". Errors are "安装更新失败: " + cause, "检查更新失败: " + cause, or "更新器未初始化". |
| UpdateManager.AutoCheckSchedule | src/components/UpdateManager.tsx:149-166 | With auto-check on, the first automatic check is at 5000 ms and none comes earlier. The default period is 3 600 000 ms. |
| UpdateManager.AutoCheckFiresAt | src/components/UpdateManager.tsx:149-166 | An automatic check fires at time t exactly when auto-check is on, the component is still mounted, and t is the 5000 ms startup delay or a positive multiple of the period. |
| UpdateManager.FirstVersionMatch | src/components/UpdateManager.tsx:44 | Returns the leftmost position where "发现新版本: " is followed by a digit or dot, or none if there is no such position. |
| UpdateManager.VersionRun | src/components/UpdateManager.tsx:44 | The greedy `[\d.]+` capture: the longest prefix made of digits and dots. |
| UpdateManager.ExtractVersion | src/components/UpdateManager.tsx:44-45 | A version is found exactly when the pattern matches anywhere. It is then the nonempty digit-and-dot run after the leftmost match. |
| UpdateManager.ReportedVersion | src/components/UpdateManager.tsx:44-45 | When the pattern matches, the shown version is exactly the captured run. When it does not, it is "未知版本". The shown version is never "未知版本" when the pattern matches. |
| UpdateManager.MarkerWithoutVersion | src/components/UpdateManager.tsx:43-45 | A reply with the marker followed by no digit or dot is shown with version "未知版本". |
| UpdateManager.WithNotes | src/components/UpdateManager.tsx:121 | Only the notes are replaced, and only when there is update info. |
| UpdateManager.UpdateController.constructor | src/components/UpdateManager.tsx:25-31 | The initial state: nothing available, not checking or downloading, progress 0, no info, no error, prompt hidden. |
| UpdateManager.UpdateController.BeginCheck | src/components/UpdateManager.tsx:34-38 | A call during a check changes nothing and makes no backend call. Otherwise `checking` becomes true and the error is cleared. |
| UpdateManager.UpdateController.CompleteCheck | src/components/UpdateManager.tsx:40-81 | On a reply with the marker: the update info with the fixed notes, the prompt opened, and the notice. On another reply: a success notice only if asked. On a failure: the error, plus an error notice if asked. `checking` ends false on every path. |
| UpdateManager.UpdateController.ShowNewVersion | src/components/UpdateManager.tsx:47-61 | Stores the version with the fixed notes as available, marks an update available, opens the prompt and queues the new-version notice. Nothing else changes. |
| UpdateManager.UpdateController.BeginDownload | src/components/UpdateManager.tsx:85-102 | A call during a download changes nothing. Otherwise it starts the download, clears the error, resets progress to 0 and starts a fresh simulator. |
| UpdateManager.UpdateController.SimulatorTick | src/components/UpdateManager.tsx:94-102 | A running simulator below 90 adds the increment; at 90 or more it stops itself. Progress never decreases and stays below 100. |
| UpdateManager.UpdateController.CompleteDownload | src/components/UpdateManager.tsx:104-133 | On success: this attempt's simulator stops and progress is 100. The installed marker schedules the completion dialog; any other reply becomes the notes. On failure: the error and an error notice, with the simulator left running. `downloading` ends false. |
| UpdateManager.UpdateController.ShowCompletionDialog | src/components/UpdateManager.tsx:110-119 | Once the delay elapses, a scheduled dialog is shown with its fixed title and text. |
| UpdateManager.UpdateController.AcknowledgeCompletion | src/components/UpdateManager.tsx:114-117 | OK on an open completion dialog requests one restart. |
| UpdateManager.UpdateController.SkipUpdate | src/components/UpdateManager.tsx:137-146 | Hides the prompt, forgets the update and its info, and shows the skipped notice. Nothing else changes. |
| UpdateManager.UpdateController.ClickNewVersionNotice | src/components/UpdateManager.tsx:60 | A click on the notice reopens the prompt and changes nothing else. |
| UpdateProtocol.ReplyHeadIsPatternLead | src-tauri/src/lib.rs:239 | The backend's reply head is exactly the literal part of the front end's version pattern. |
| UpdateProtocol.CheckReplyVersionRoundTrip | src/components/UpdateManager.tsx:43-45 | Reading the version back from the backend's new-version reply gives the reply's leading digit-and-dot run. |
| UpdateProtocol.WellFormedVersionRoundTrip | src-tauri/src/lib.rs:239 | A digit-and-dot version sent by the backend is shown unchanged by the front end. |
| UpdateProtocol.NoMarkerInUpToDate | src-tauri/src/lib.rs:242 | The up-to-date reply does not contain the new-version marker. |
| UpdateProtocol.CheckReplyMarker | src/components/UpdateManager.tsx:43 | A successful check reply carries the new-version marker exactly when an update is available. |
| UpdateProtocol.InstallReplyMarkers | src-tauri/src/lib.rs:274-283 | The installed reply contains the installed marker and the nothing-to-install reply does not. |
| UpdateProtocol.DownloadReplyMarker | src/components/UpdateManager.tsx:109 | A successful download reply carries the installed marker exactly when there was an update, which was then installed. |
| UpdateProtocol.NewVersionFound | src/components/UpdateManager.tsx:43-61 | Checking against updater version 2.3.1 stores version "2.3.1" with the fixed notes, opens the prompt and shows one notice. |
| UpdateProtocol.UpToDateOnRequest | src/components/UpdateManager.tsx:62-68 | A manual check with no update stores nothing, leaves the prompt closed and shows the backend's reply. |
| UpdateProtocol.InstallAndRestart | src/components/UpdateManager.tsx:104-119 | An install that succeeds ends at progress 100, then shows the completion dialog, then requests a restart. |
| UpdateProtocol.FailedDownload | src/components/UpdateManager.tsx:94-133 | After a failed install the error is the backend's message, and the leaked simulator still raises the progress. |
| ScriptSupport.VersionTypeArg | scripts/update-version.js:12 | A missing or empty first argument means "patch"; any other first argument is used as given. |
| ScriptSupport.TagName | scripts/create-tag.js:44 | The tag is "v" followed by the version. |
| ScriptSupport.ExecCommand | scripts/create-tag.js:24-34 | The command is issued, and it succeeds exactly when the oracle answers for it. |
| UpdateVersion.ParseVersion | scripts/update-version.js:24 | A version parses exactly when it matches `^\d+\.\d+\.\d+$`. |
| UpdateVersion.IsExplicitVersion | scripts/update-version.js:24 | The `^\d+\.\d+\.\d+$` test: the text splits at dots into exactly three nonempty digit groups. |
| UpdateVersion.ParseFormatVersion | scripts/update-version.js:24 | Printing a version and parsing the text gives the same version back. |
| UpdateVersion.GetNewVersion | scripts/update-version.js:22-40 | An explicit version is returned as it is. The result is a success exactly for an explicit version or one of major, minor, patch. Anything else fails with "未知的版本类型: " + type. |
| UpdateVersion.DotlessIsNotExplicit | scripts/update-version.js:24 | A text without a dot is not an explicit version, so the keywords never take the explicit-version path. |
| UpdateVersion.ToNumber | scripts/update-version.js:28 | `Number(part)` is never undefined; it is a number exactly when the part is made of digits, and NaN otherwise. |
| UpdateVersion.Component | scripts/update-version.js:28 | The destructured part is undefined exactly when the split has no part at that position. |
| UpdateVersion.Show | scripts/update-version.js:30-36 | The printed part is never empty, and it is a digit string exactly when the part is a number. |
| UpdateVersion.BumpIsIncrement | scripts/update-version.js:28-36 | For a well-formed current version, a keyword bump gives the incremented version. That result parses back and is strictly greater. |
| UpdateVersion.ShortCurrentQuirk | scripts/update-version.js:28-36 | The current version "1.2" bumped with patch gives "1.2.NaN": the patch mode reads the missing third part. |
| UpdateVersion.TwoPartCurrent | scripts/update-version.js:28-36 | For any two-part current version a.b: major gives (a+1).0.0 and minor gives a.(b+1).0, both without `NaN`; only patch reads the missing part and gives a.b.NaN. |
| UpdateVersion.LineEnd | scripts/update-version.js:53 | The end of the line that starts at a given position: no line terminator before it, and a terminator or the end of text at it. |
| UpdateVersion.FirstVersionLine | scripts/update-version.js:53 | The first line start at which a `version = "…"` line begins, or none if there is no such line. |
| UpdateVersion.VersionLine | scripts/update-version.js:53 | The replacement text is itself a version line. |
| UpdateVersion.ReplaceVersionLine | scripts/update-version.js:53 | Text without a version line is unchanged. Otherwise only its first version line is replaced by `version = "<new>"`; the text before and after that line is kept. |
| UpdateVersion.ReplacedLineIsFirst | scripts/update-version.js:53 | After the replacement, the new line is the first version line of the text. |
| UpdateVersion.ReplaceVersionLineIdempotent | scripts/update-version.js:53 | A second replacement with the same version changes nothing more. |
| UpdateVersion.Manifests.Run | scripts/update-version.js:11-62 | The outcome is the version computed from the current version and the argument. A failure changes no manifest. A success writes the new version to package.json, Cargo.toml and tauri.conf.json. |
| Release.AcceptedTypesBump | scripts/release.js:43 | Every version type the release accepts is one the bump can handle. |
| Release.IsAcceptedType | scripts/release.js:43 | A type is accepted exactly when it is patch, minor or major, or an explicit three-part version. |
| Release.ReleasePlan | scripts/release.js:84-92 | The build runs exactly when the release is not told to skip it. |
| Release.CheckGit | scripts/release.js:51-65 | Issues the status query, then the branch query, stopping at the first failure. It passes exactly when both succeed. |
| Release.BumpBuildTag | scripts/release.js:67-96 | Issues the bump, the build unless it is skipped, and the tag script, stopping at the first failure. It passes exactly when all of them succeed. |
| Release.Run | scripts/release.js:38-121 | An unaccepted type exits 1 before any command. Otherwise the commands issued are a prefix of the plan, stopping at the first failure with exit code 1. The release finishes exactly when every planned command succeeds, under tag "v" + the new version. |
| Release.SkipFlagAloneIsRejected | scripts/release.js:41-44 | The skip flag given alone is read as the version type and rejected. |
| CreateTag.TagListedIsWholeLine | scripts/create-tag.js:77-78 | The tag counts as existing exactly when it is one whole line of the `git tag -l` output. |
| CreateTag.TagListed | scripts/create-tag.js:78 | The tag is one of the pieces of the listing split at newlines. |
| CreateTag.TwoLines | scripts/create-tag.js:78 | A listing of two tags on two lines names exactly those two tags. |
| CreateTag.LongerTagDoesNotCount | scripts/create-tag.js:78 | A tag that only begins a listed tag ("v1.0.1" against "v1.0.10") does not count as existing. |
| CreateTag.CheckStatus | scripts/create-tag.js:50-73 | The status check passes exactly when the status is known and the tree is clean or its changes were committed. A dirty tree without the auto-commit flag stops after the status query. |
| CreateTag.CheckTag | scripts/create-tag.js:76-100 | The tag check passes exactly when the tag list is known and the tag is new or was deleted locally. An existing tag without the force flag stops after the listing. A failed remote deletion is ignored. |
| CreateTag.Publish | scripts/create-tag.js:102-116 | Creates the tag, then pushes the current branch, then the tag, stopping at the first failure. It succeeds exactly when all four commands succeed. |
| CreateTag.TagAndPublish | scripts/create-tag.js:75-116 | The commands issued are a prefix of the listing, the overwrite and publishing. An existing tag without the force flag stops after the listing. It finishes exactly when the tag check passes and all four publishing commands succeed. |
| CreateTag.Run | scripts/create-tag.js:36-132 | The commands issued are a prefix of the plan, and every command but the last succeeded, except the remote deletion. An exit is code 1, either from a refusing check or from a failed command. The run finishes exactly when both checks pass and publishing succeeds. |
| UserSlice.WithoutId | src/store/slices/userSlice.ts:35 | No user with the removed id is left, and the list does not grow. |
| UserSlice.WithoutIdAppend | src/store/slices/userSlice.ts:35 | Filtering a joined list joins the filtered parts, so the kept users stay in their order. |
| UserSlice.WithoutIdKeepsOthers | src/store/slices/userSlice.ts:35 | Every user with another id is kept as many times as it occurs. |
| UserSlice.WithoutIdMembers | src/store/slices/userSlice.ts:35 | A user remains exactly when it was in the list and has another id. |
| UserSlice.WithoutIdAbsent | src/store/slices/userSlice.ts:34-36 | Removing an id that no user has leaves the list unchanged. |
| UserSlice.WithoutIdIdempotent | src/store/slices/userSlice.ts:34-36 | Removing the same id twice is the same as removing it once. |
| UserSlice.UserStore.constructor | src/store/slices/userSlice.ts:15-19 | Initially there is no current user, the list is empty, and the store is not loading. |
| UserSlice.UserStore.SetCurrentUser | src/store/slices/userSlice.ts:25-27 | Sets the current user and changes nothing else. |
| UserSlice.UserStore.SetUsers | src/store/slices/userSlice.ts:28-30 | Replaces the whole list and changes nothing else. |
| UserSlice.UserStore.AddUser | src/store/slices/userSlice.ts:31-33 | Appends the user at the end. The list grows by one, the old list is an unchanged prefix, and nothing else changes. |
| UserSlice.UserStore.RemoveUser | src/store/slices/userSlice.ts:34-36 | The list becomes the filtered list, whose members are exactly the old members with another id. Nothing else changes. |
| UserSlice.UserStore.SetLoading | src/store/slices/userSlice.ts:37-39 | Sets the loading flag and changes nothing else. |
| UserSlice.UserStore.ClearCurrentUser | src/store/slices/userSlice.ts:40-42 | Clears the current user and changes nothing else. |
| UserManagement.SeedUsers | src/pages/UserManagement.tsx:36-40 | Three sample users with ids 1, 2 and 3. |
| UserManagement.ApplyEdit | src/pages/UserManagement.tsx:66-68 | The length, every id and the order are kept. Users with another id are identical. Users with the edited id take the form's name and e-mail. |
| UserManagement.ApplyEditIdempotent | src/pages/UserManagement.tsx:66-68 | Saving the same values again changes nothing more. |
| UserManagement.EditThenDelete | src/pages/UserManagement.tsx:57-68 | Deleting an edited user gives the same list as deleting it unedited. |
| UserManagement.NewUser | src/pages/UserManagement.tsx:73-77 | The added user has the caller's clock value as its id and the form's name and e-mail. |
| UserManagement.UserPage.constructor | src/pages/UserManagement.tsx:29-30 | The dialog starts closed and nobody is being edited. |
| UserManagement.UserPage.SeedIfEmpty | src/pages/UserManagement.tsx:34-43 | An empty list becomes the three sample users. Any other list, and everything else in the store, is left as it was. |
| UserManagement.UserPage.HandleAddUser | src/pages/UserManagement.tsx:45-49 | Opens the dialog in add mode. |
| UserManagement.UserPage.HandleEditUser | src/pages/UserManagement.tsx:51-55 | Opens the dialog in edit mode for the chosen user. |
| UserManagement.UserPage.HandleDeleteUser | src/pages/UserManagement.tsx:57-60 | Delete is exactly the store's remove by id. |
| UserManagement.UserPage.HandleModalOk | src/pages/UserManagement.tsx:62-84 | Failed validation changes nothing. An edit rewrites the entries with the edited id, and an add appends the new user. Either way the dialog closes and the edited user is kept. |
| UserManagement.UserPage.HandleModalCancel | src/pages/UserManagement.tsx:86-89 | Closes the dialog and keeps the edited user. |

## Left out

- Console output, colours, `dbg!` and `println!` logging, and message toasts that have no state effect (`message.success` on the user page).
- Notification placement and duration are not modelled. Notifications are recorded in an event list.
- Reading and writing files, and JSON parsing and printing. The manifests are fields holding the version; Cargo.toml is held as text.
- The updater plugin itself, the network and GitHub Releases. Their outcome is a parameter. `get_app_version`, `get_update_info` and `restart_app` are not part of this model. Only the fact that the restart is requested is.
- `async_task` and `get_system_info` (sleeping and host information) are not modelled.
- The `unwrap` panics of `manage_window` on a failing window operation.
- The sleeps between progress events are not modelled, and neither is the background task's concurrency with the reply.
- Backend.DivideNumbers: works on mathematical reals. Floating-point rounding, infinities and NaN are not modelled.
- Backend.ToUpper: maps ASCII letters only. Rust's Unicode case mapping of other letters, including length-changing ones, is not modelled.
- Backend.ToLower: maps ASCII letters only, for the same reason.
- UpdateVersion.GetNewVersion: `Number()` on a version part is modelled for digit-only parts, the empty part (0) and anything else (NaN). Its whitespace, sign, hexadecimal and exponent forms are not modelled, and neither are numbers past 2^53.
- UpdateVersion.ReplaceVersionLine: the replacement text is inserted literally. The `$` patterns of `String.prototype.replace` are not interpreted.
- UpdateManager.UpdateController.BeginCheck: the timer callbacks in the component capture an earlier render's `checking` value. The model reads the current value.
- UpdateManager.AutoCheckSchedule: assumes a positive whole number of minutes. Fractional, zero and negative intervals are not modelled.
- Browser timer delays are ordered steps, not clock times. A tick, the dialog delay and a reply can be interleaved in any order by calling the methods in that order.
- CreateTag.Run: a command issued twice gets the same answer from the oracle both times.
- `execSync` answers come from the oracle, and a command succeeds exactly when the oracle answers for it. In both scripts' `execCommand`, a command that is not silent runs with `stdio: 'inherit'`. `execSync` then returns `null`, so `.trim()` throws, and the command is reported as failed after it has run. This affects the bump, the build, the tag script, `git add`, `git commit`, `git tag -d`, the remote tag deletion, `git tag -a` and both pushes. The model does not capture this: it treats each of them as succeeding when the oracle answers (release.js:26-35, create-tag.js:24-34).
- The JSX rendering of the user page: the table, the pagination and the form rendering. The form's prefilling and reset are not modelled, and validation is an input.
- The pages and the store wiring not named here (counter, communication demo, router, layout) are not part of this model. The layout mounts the update controller with a 30-minute interval.
