/** The wrapper's main program: polling for NVLSM's socket and choosing the commands. */
module Wrapper {
  import opened Hex
  import MgmtPort
  import Supervisor

  // ----- waitForFile -----

  datatype WaitResult = FileFound | ContextCancelled | TimedOut

  const POLL_MS: nat := 100

  function MaxPolls(timeout: nat): nat {
    (timeout + POLL_MS - 1) / POLL_MS
  }

  /** The surroundings of waitForFile at its `k`-th turn: whether the context is done,
      the milliseconds since the timer was set, whether the stat succeeds, and which case
      `select` picks when both channels are ready.  A sleep lasts at least POLL_MS. */
  datatype Surroundings = Surroundings(
    contextDone: nat -> bool, elapsed: nat -> nat, fileExists: nat -> bool, picksContext: nat -> bool)
  {
    ghost predicate SleepsEnough() {
      forall k: nat :: elapsed(k + 1) >= elapsed(k) + POLL_MS
    }

    /** Turn `k` goes past the select: neither channel is ready. */
    predicate Polls(timeout: nat, k: nat) {
      !contextDone(k) && elapsed(k) < timeout
    }
  }

  /** Times in milliseconds; `polls` counts the stat calls. */
  method WaitForFile(env: Surroundings, timeout: nat) returns (result: WaitResult, polls: nat)
    requires env.SleepsEnough()
    ensures polls <= MaxPolls(timeout)
    ensures polls > 0 ==> 100 * (polls - 1) < timeout
    ensures forall k :: 0 <= k < polls ==> env.Polls(timeout, k)
    ensures forall k :: 0 <= k < polls ==> (env.fileExists(k) <==> result == FileFound && k == polls - 1)
    ensures result == FileFound ==> polls > 0
    ensures result == ContextCancelled ==> env.contextDone(polls)
    ensures result == TimedOut ==> env.elapsed(polls) >= timeout
  {
    polls := 0;
    while true
      invariant forall k :: 0 <= k < polls ==> env.Polls(timeout, k) && !env.fileExists(k)
      invariant env.elapsed(polls) >= POLL_MS * polls
      invariant polls <= MaxPolls(timeout)
      decreases MaxPolls(timeout) - polls
    {
      var done, late := env.contextDone(polls), env.elapsed(polls) >= timeout;
      if done && (!late || env.picksContext(polls)) {
        return ContextCancelled, polls;
      }
      if late {
        return TimedOut, polls;
      }
      assert polls < MaxPolls(timeout);
      assert env.elapsed(polls + 1) >= env.elapsed(polls) + POLL_MS;
      if env.fileExists(polls) {
        return FileFound, polls + 1;
      }
      polls := polls + 1;
    }
  }

  // ----- the commands -----

  datatype Command = Command(path: string, args: seq<string>)

  const FM_CMD := "/usr/bin/nv-fabricmanager"
  const FM_CONFIG := "/usr/share/nvidia/nvswitch/fabricmanager.cfg"
  const SM_CMD := "/opt/nvidia/nvlsm/sbin/nvlsm"
  const SM_CONFIG := "/usr/share/nvidia/nvlsm/nvlsm.conf"
  const SM_PID := "/var/run/nvlsm.pid"
  const SM_SOCKET_WAIT: nat := 15000

  function Chars(bytes: seq<Byte>): (s: string)
    ensures |s| == |bytes|
  {
    seq(|bytes|, i requires 0 <= i < |bytes| => bytes[i] as int as char)
  }

  /** The format `0x%x`. */
  function GuidText(guid: nat): string {
    "0x" + Chars(Text(guid))
  }

  lemma {:induction false} CharsInjective(a: seq<Byte>, b: seq<Byte>)
    requires Chars(a) == Chars(b)
    ensures a == b
  {
    forall i | 0 <= i < |a| ensures a[i] == b[i] {
      assert Chars(a)[i] == Chars(b)[i];
    }
  }

  /** The text names its GUID: two ports with different GUIDs get different arguments. */
  lemma {:induction false} GuidTextInjective(g: nat, h: nat)
    ensures GuidText(g) == GuidText(h) <==> g == h
  {
    if GuidText(g) == GuidText(h) {
      assert GuidText(g)[2..] == Chars(Text(g)) && GuidText(h)[2..] == Chars(Text(h));
      CharsInjective(Text(g), Text(h));
      TextValue(g);
      TextValue(h);
    }
  }

  /** A zero and an `x`, then the digits, in lower case and without a leading zero, of a
      numeral of that value. */
  lemma {:induction false} GuidTextForm(guid: nat)
    ensures var t := GuidText(guid);
      && |t| == 2 + |Text(guid)| && t[0] == '0' && t[1] == 'x' && Value(Text(guid)) == guid
      && (forall i :: 0 <= i < |Text(guid)| ==> t[2 + i] as int == Text(guid)[i] as int)
      && (forall i :: 2 <= i < |t| ==> '0' <= t[i] <= '9' || 'a' <= t[i] <= 'f')
      && (guid > 0 ==> t[2] != '0')
  {
    TextValue(guid);
    TextForm(guid);
    var t := GuidText(guid);
    forall i | 2 <= i < |t| ensures t[i] as int == Text(guid)[i - 2] as int {
      assert t[i] == Chars(Text(guid))[i - 2];
    }
  }

  /** The commands main starts, in order, for the outcome of the port search. */
  method ChooseCommands(search: MgmtPort.Search) returns (commands: seq<Command>)
    ensures search.Found? ==>
      && |commands| == 2
      && commands[0].path == "/opt/nvidia/nvlsm/sbin/nvlsm" && commands[1].path == "/usr/bin/nv-fabricmanager"
      && commands[0].args == ["--config", "/usr/share/nvidia/nvlsm/nvlsm.conf", "--guid", GuidText(search.port.guid),
                              "--pid_file", "/var/run/nvlsm.pid", "--log_file", "stdout"]
      && commands[1].args == ["--config", "/usr/share/nvidia/nvswitch/fabricmanager.cfg",
                              "--fm-sm-mgmt-port-guid", GuidText(search.port.guid)]
    ensures search.Failed? ==>
      && |commands| == 1 && commands[0].path == "/usr/bin/nv-fabricmanager"
      && commands[0].args == ["--config", "/usr/share/nvidia/nvswitch/fabricmanager.cfg"]
  {
    var guidText := "";
    if search.Found? {
      guidText := GuidText(search.port.guid);
    }
    commands := [];
    if guidText != "" {
      commands := [Command(SM_CMD, ["--config", SM_CONFIG, "--guid", guidText, "--pid_file", SM_PID,
                                    "--log_file", "stdout"])];
    }
    var fmArgs := ["--config", FM_CONFIG];
    if guidText != "" {
      fmArgs := fmArgs + ["--fm-sm-mgmt-port-guid", guidText];
    }
    commands := commands + [Command(FM_CMD, fmArgs)];
  }

  /** From the devices to the commands: NVLSM runs exactly when there is a management
      port, and it and FabricManager are given the GUID of the first one. */
  method PlanLaunch(devices: seq<MgmtPort.Device>, initialised: bool) returns (commands: seq<Command>)
    ensures |commands| == if initialised && MgmtPort.HasCandidate(devices) then 2 else 1
    ensures commands[|commands| - 1].path == "/usr/bin/nv-fabricmanager"
    ensures |commands| == 2 ==>
      exists d: nat, i: nat :: MgmtPort.IsFirst(devices, d, i)
        && var guid := GuidText(MgmtPort.BigEndian(devices[d].ports[i].guid));
          && commands[0].path == "/opt/nvidia/nvlsm/sbin/nvlsm"
          && commands[0].args == ["--config", "/usr/share/nvidia/nvlsm/nvlsm.conf", "--guid", guid,
                                  "--pid_file", "/var/run/nvlsm.pid", "--log_file", "stdout"]
          && commands[1].args == ["--config", "/usr/share/nvidia/nvswitch/fabricmanager.cfg",
                                  "--fm-sm-mgmt-port-guid", guid]
    ensures |commands| == 1 ==> commands[0].args == ["--config", "/usr/share/nvidia/nvswitch/fabricmanager.cfg"]
  {
    var search, trace := MgmtPort.FindNvswitchMgmtPort(devices, initialised);
    commands := ChooseCommands(search);
  }

  /** What the supervisor's model is started with: a bounded wait behind NVLSM only. */
  function SupervisorConfig(commands: seq<Command>): (c: Supervisor.Config)
    requires |commands| == 1 || |commands| == 2
    ensures c.polls == if |commands| == 2 then [150, 0] else [0]
  {
    Supervisor.Config(if |commands| == 2 then [MaxPolls(SM_SOCKET_WAIT), 0] else [0])
  }

  /** Whatever main starts, every interleaving ends within a fixed number of steps. */
  lemma {:induction false} LaunchEnds(commands: seq<Command>, run: seq<Supervisor.State>)
    requires |commands| == 1 || |commands| == 2
    requires Supervisor.IsRun(SupervisorConfig(commands), run)
    requires Supervisor.Init(SupervisorConfig(commands), run[0])
    ensures |run| <= if |commands| == 2 then 183 else 20
  {
    var c, phases := SupervisorConfig(commands), run[0].phases;
    Supervisor.RunsEnd(c, run, |run| - 1);
    assert Supervisor.Ahead(c, |commands|) == 3;
    assert Supervisor.Ahead(c, |commands| - 1) == 7;
    assert Supervisor.Ranks(phases, 1) == 9;
    assert |commands| == 2 ==> Supervisor.Ahead(c, 0) == 161 && Supervisor.Ranks(phases, 2) == 18;
  }
}
