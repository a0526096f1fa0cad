/** The native command handlers of the desktop shell (src-tauri/src/lib.rs), as
    pure functions from their arguments, and from the outcomes of the updater
    plugin, to the values they hand back to the web view. */
module Backend {
  import opened Wrappers
  import opened Text

  /** Unsigned 32-bit integers (`u32`). */
  type U32 = x: int | 0 <= x < 0x1_0000_0000

  datatype User = User(id: U32, name: string, email: string, age: U32)

  /** The response envelope `ApiResponse<T>`. */
  datatype ApiResponse<T> = ApiResponse(success: bool, data: Option<T>, message: string)

  // ---------------------------------------------------------------- greet

  const GreetingHead: string := "Hello, "
  const GreetingTail: string := "! You've been greeted from Rust!"

  /** `greet`: the empty and the over-long name only log a warning, so every
      name, the empty one included, is greeted the same way. */
  function Greet(name: string): (r: string)
    ensures |r| == |GreetingHead| + |name| + |GreetingTail|
    ensures r[..|GreetingHead|] == GreetingHead
    ensures r[|GreetingHead|..|GreetingHead| + |name|] == name
    ensures r[|GreetingHead| + |name|..] == GreetingTail
  {
    GreetingHead + name + GreetingTail
  }

  /** Recovers the name from a greeting: the inverse of `Greet`. */
  function GreetedName(greeting: string): Option<string>
  {
    var h, t := |GreetingHead|, |GreetingTail|;
    if h + t <= |greeting| && greeting[..h] == GreetingHead && greeting[|greeting| - t..] == GreetingTail
    then Some(greeting[h..|greeting| - t])
    else None
  }

  lemma GreetRoundTrip(name: string)
    ensures GreetedName(Greet(name)) == Some(name)
  {
    var g := Greet(name);
    assert g[|g| - |GreetingTail|..] == GreetingTail;
  }

  // ---------------------------------------------------------------- process_user

  predicate IsAsciiLower(c: char) { 'a' <= c <= 'z' }
  predicate IsAsciiUpper(c: char) { 'A' <= c <= 'Z' }

  function AsciiUpper(c: char): (u: char)
    ensures !IsAsciiLower(u)
    ensures IsAsciiLower(c) ==> u as int == c as int - 32
    ensures !IsAsciiLower(c) ==> u == c
  {
    if IsAsciiLower(c) then (c as int - 32) as char else c
  }

  function AsciiLower(c: char): (l: char)
    ensures !IsAsciiUpper(l)
    ensures IsAsciiUpper(c) ==> l as int == c as int + 32
    ensures !IsAsciiUpper(c) ==> l == c
  {
    if IsAsciiUpper(c) then (c as int + 32) as char else c
  }

  /** `str::to_uppercase`, restricted to the ASCII letters. */
  function ToUpper(s: string): (r: string)
    ensures |r| == |s| && forall k | 0 <= k < |s| :: r[k] == AsciiUpper(s[k])
  {
    seq(|s|, k requires 0 <= k < |s| => AsciiUpper(s[k]))
  }

  /** `str::to_lowercase`, restricted to the ASCII letters. */
  function ToLower(s: string): (r: string)
    ensures |r| == |s| && forall k | 0 <= k < |s| :: r[k] == AsciiLower(s[k])
  {
    seq(|s|, k requires 0 <= k < |s| => AsciiLower(s[k]))
  }

  /** `process_user`: the same user with the name upper-cased and the e-mail
      lower-cased, always reported as a success. */
  function ProcessUser(user: User): (r: ApiResponse<User>)
    ensures r.success && r.message == "User processed successfully"
    ensures r.data.Some? && r.data.value.id == user.id && r.data.value.age == user.age
    ensures r.data.value.name == ToUpper(user.name) && r.data.value.email == ToLower(user.email)
    ensures |r.data.value.name| == |user.name| && |r.data.value.email| == |user.email|
    ensures forall k | 0 <= k < |user.name| :: !IsAsciiLower(r.data.value.name[k])
    ensures forall k | 0 <= k < |user.email| :: !IsAsciiUpper(r.data.value.email[k])
  {
    ApiResponse(true, Some(User(user.id, ToUpper(user.name), ToLower(user.email), user.age)),
                "User processed successfully")
  }

  /** Processing an already processed user gives it back unchanged. */
  lemma ProcessUserIdempotent(user: User)
    ensures ProcessUser(ProcessUser(user).data.value) == ProcessUser(user)
  {
    var p := ProcessUser(user).data.value;
    assert ToUpper(p.name) == p.name;
    assert ToLower(p.email) == p.email;
  }

  // ---------------------------------------------------------------- divide_numbers

  const DivisionByZero: string := "Division by zero is not allowed"

  /** `divide_numbers`, with `f64` read as real numbers: the only failure is a
      zero divisor, and a success is the exact quotient. */
  function DivideNumbers(a: real, b: real): (r: Result<real, string>)
    ensures r.Failure? <==> b == 0.0
    ensures r.Failure? ==> r.error == DivisionByZero
    ensures r.Success? ==> r.value * b == a
  {
    if b == 0.0 then Failure(DivisionByZero) else Success(a / b)
  }

  // ---------------------------------------------------------------- start_progress_task

  datatype AppEvent =
    | ProgressUpdate(progress: nat, message: string)
    | TaskCompleted(message: string)

  function StepMessage(i: nat): string
  {
    "Processing step " + NatToString(i) + "/100"
  }

  const LastStep: nat := 100

  /** `start_progress_task`: the immediate reply, and the events the spawned task
      emits one after the other. A failed emit is discarded with `.ok()`, so every
      event is attempted; the 50 ms pauses are not modelled. */
  method StartProgressTask() returns (reply: ApiResponse<string>, events: seq<AppEvent>)
    ensures reply == ApiResponse(true, Some("Progress task started"), "Background task initiated")
    ensures |events| == LastStep + 2
    ensures forall i | 0 <= i <= LastStep :: events[i] == ProgressUpdate(i, StepMessage(i))
    ensures events[LastStep + 1] == TaskCompleted("Task completed successfully!")
  {
    events := [];
    for i := 0 to LastStep + 1
      invariant |events| == i
      invariant forall k | 0 <= k < i :: events[k] == ProgressUpdate(k, StepMessage(k))
    {
      events := events + [ProgressUpdate(i, StepMessage(i))];
    }
    events := events + [TaskCompleted("Task completed successfully!")];
    reply := ApiResponse(true, Some("Progress task started"), "Background task initiated");
  }

  // ---------------------------------------------------------------- get_users

  /** `get_users`: three fixed users with the ids 1, 2 and 3, in that order. */
  function GetUsers(): (r: ApiResponse<seq<User>>)
    ensures r.success && r.message == "Users retrieved successfully"
    ensures r.data.Some? && |r.data.value| == 3
    ensures forall k | 0 <= k < 3 :: r.data.value[k].id == k + 1
  {
    ApiResponse(true, Some([
      User(1, "Alice", "alice@example.com", 25),
      User(2, "Bob", "bob@example.com", 30),
      User(3, "Charlie", "charlie@example.com", 35)
    ]), "Users retrieved successfully")
  }

  // ---------------------------------------------------------------- manage_window

  datatype WindowOp = Minimize | Maximize | Close

  function ActionName(op: WindowOp): string
  {
    match op
    case Minimize => "minimize"
    case Maximize => "maximize"
    case Close => "close"
  }

  /** The window operation `manage_window` performs for an action, if any. */
  function ParseWindowAction(action: string): (op: Option<WindowOp>)
    ensures op.Some? ==> ActionName(op.value) == action
  {
    if action == "minimize" then Some(Minimize)
    else if action == "maximize" then Some(Maximize)
    else if action == "close" then Some(Close)
    else None
  }

  /** Exactly the three action names are recognised. */
  lemma ParseWindowActionExact(action: string, op: WindowOp)
    ensures ParseWindowAction(action) == Some(op) <==> action == ActionName(op)
  {
  }

  function WindowMessage(op: Option<WindowOp>): string
  {
    match op
    case Some(Minimize) => "Window minimized"
    case Some(Maximize) => "Window maximized"
    case Some(Close) => "Window closed"
    case None => "Unknown action"
  }

  /** `manage_window`: the reply always reports success; its data names what was
      done, and an unrecognised action is answered with "Unknown action". */
  function ManageWindow(action: string): (r: ApiResponse<string>)
    ensures r.success && r.message == "Window action executed"
    ensures r.data.Some?
    ensures r.data.value == "Unknown action" <==> ParseWindowAction(action).None?
    ensures action == "minimize" ==> r.data.value == "Window minimized"
    ensures action == "maximize" ==> r.data.value == "Window maximized"
    ensures action == "close" ==> r.data.value == "Window closed"
  {
    ApiResponse(true, Some(WindowMessage(ParseWindowAction(action))), "Window action executed")
  }

  // ---------------------------------------------------------------- updater commands

  /** What the updater plugin reports when asked for an update: no updater
      configured, a failed check (its error text), or a completed check. */
  datatype UpdaterCheck =
    | UpdaterMissing
    | CheckError(cause: string)
    | CheckDone(available: bool, version: string)

  /** The outcome of `download_and_install` on an available update. */
  datatype InstallStep = Installed | InstallError(cause: string)

  const NewVersionReplyHead: string := "发现新版本: "
  const UpToDateReply: string := "当前已是最新版本"
  const CheckFailedHead: string := "检查更新失败: "
  const UpdaterMissingOnCheck: string := "更新器未初始化，请检查配置"

  /** `check_for_updates`. */
  function CheckForUpdates(check: UpdaterCheck): (r: Result<string, string>)
    ensures r.Success? <==> check.CheckDone?
    ensures check == UpdaterMissing ==> r == Failure(UpdaterMissingOnCheck)
    ensures check.CheckError? ==> r == Failure(CheckFailedHead + check.cause)
    ensures check.CheckDone? && check.available ==> r == Success(NewVersionReplyHead + check.version)
    ensures check.CheckDone? && !check.available ==> r == Success(UpToDateReply)
  {
    match check
    case UpdaterMissing => Failure(UpdaterMissingOnCheck)
    case CheckError(e) => Failure(CheckFailedHead + e)
    case CheckDone(available, version) =>
      if available then Success(NewVersionReplyHead + version) else Success(UpToDateReply)
  }

  const InstalledReply: string := "更新已安装，应用将重启"
  const NothingToInstallReply: string := "没有可用更新"
  const InstallFailedHead: string := "安装更新失败: "
  const UpdaterMissingOnInstall: string := "更新器未初始化"

  /** `download_and_install_update`: it checks again, and installs only when the
      check finds an update; `install` is consulted only then. */
  function DownloadAndInstallUpdate(check: UpdaterCheck, install: InstallStep): (r: Result<string, string>)
    ensures r.Success? <==> check.CheckDone? && (check.available ==> install == Installed)
    ensures check == UpdaterMissing ==> r == Failure(UpdaterMissingOnInstall)
    ensures check.CheckError? ==> r == Failure(CheckFailedHead + check.cause)
    ensures check.CheckDone? && !check.available ==> r == Success(NothingToInstallReply)
    ensures check.CheckDone? && check.available ==>
              r == (match install
                    case Installed => Success(InstalledReply)
                    case InstallError(e) => Failure(InstallFailedHead + e))
  {
    match check
    case UpdaterMissing => Failure(UpdaterMissingOnInstall)
    case CheckError(e) => Failure(CheckFailedHead + e)
    case CheckDone(available, _) =>
      if !available then Success(NothingToInstallReply)
      else match install
        case Installed => Success(InstalledReply)
        case InstallError(e) => Failure(InstallFailedHead + e)
  }
}
