/** The judge's sandbox: which commands are accepted, and the docker arguments they become. */
module Sandbox {
  import opened Wrappers
  import opened Text
  import opened Numbers
  import opened Float

  datatype SandboxPolicy = SandboxPolicy(
    runtime: string,
    networkDisabled: bool,
    readOnlyRootfs: bool,
    cpuMillis: nat,
    memoryKb: nat,
    timeLimitMs: nat,
    outputLimitBytes: nat)

  /** The four limits are u32 values. */
  predicate FitsU32(policy: SandboxPolicy) {
    && policy.cpuMillis <= U32_MAX
    && policy.memoryKb <= U32_MAX
    && policy.timeLimitMs <= U32_MAX
    && policy.outputLimitBytes <= U32_MAX
  }

  datatype PolicyError =
    | RuntimeRequired
    | NetworkMustBeDisabled
    | RootfsMustBeReadOnly
    | LimitsMustBePositive
    | ImageRequired
    | CommandRequired

  datatype RunCommand = RunCommand(imageRef: string, command: seq<string>, policy: SandboxPolicy)

  /** `SandboxPolicy::validate` */
  function Validate(policy: SandboxPolicy): Result<(), PolicyError> {
    if Trim(policy.runtime) == "" then Err(RuntimeRequired)
    else if !policy.networkDisabled then Err(NetworkMustBeDisabled)
    else if !policy.readOnlyRootfs then Err(RootfsMustBeReadOnly)
    else if policy.cpuMillis == 0 || policy.memoryKb == 0 || policy.timeLimitMs == 0 then Err(LimitsMustBePositive)
    else Ok(())
  }

  /** `GVisorRunCommand::new` */
  function New(imageRef: string, command: seq<string>, policy: SandboxPolicy): Result<RunCommand, PolicyError> {
    var _ :- Validate(policy);
    if Trim(imageRef) == "" then Err(ImageRequired)
    else if command == [] then Err(CommandRequired)
    else Ok(RunCommand(imageRef, command, policy))
  }

  /** `format!("{:.3}", f64::from(cpu_millis) / 1_000.0)` */
  function CpuText(cpuMillis: nat): string
    requires cpuMillis <= U32_MAX
  {
    Fixed3(Quotient(cpuMillis))
  }

  function MemoryText(memoryKb: nat): string {
    Dec(memoryKb) + "k"
  }

  /** The arguments before the command. */
  function Options(cmd: RunCommand): seq<string>
    requires FitsU32(cmd.policy)
  {
    ["run", "--rm",
     "--runtime", cmd.policy.runtime,
     "--network", "none",
     "--read-only",
     "--cpus", CpuText(cmd.policy.cpuMillis),
     "--memory", MemoryText(cmd.policy.memoryKb),
     cmd.imageRef]
  }

  /** `docker_args`.  The fields are private, so every command was built by `new`. */
  method DockerArgs(cmd: RunCommand) returns (args: seq<string>)
    requires FitsU32(cmd.policy) && New(cmd.imageRef, cmd.command, cmd.policy) == Ok(cmd)
    ensures args == Options(cmd) + cmd.command
    ensures |args| == 12 + |cmd.command|
    ensures ReadArgs(args) == Some(Render(cmd))
  {
    hide New, CpuText, MemoryText, ReadArgs;
    ArgsReadBack(cmd.imageRef, cmd.command, cmd.policy);
    args := ["run", "--rm",
             "--runtime", cmd.policy.runtime,
             "--network", "none",
             "--read-only",
             "--cpus", CpuText(cmd.policy.cpuMillis),
             "--memory", MemoryText(cmd.policy.memoryKb),
             cmd.imageRef];
    args := args + cmd.command;
  }

  // ----- Reading the arguments back -------------------------------------------------------------------

  /** What the arguments carry of a command. */
  datatype Rendered = Rendered(
    runtime: string,
    networkDisabled: bool,
    readOnlyRootfs: bool,
    cpuMillis: nat,
    memoryKb: nat,
    imageRef: string,
    command: seq<string>)

  function Render(cmd: RunCommand): Rendered {
    Rendered(cmd.policy.runtime, cmd.policy.networkDisabled, cmd.policy.readOnlyRootfs, cmd.policy.cpuMillis,
             cmd.policy.memoryKb, cmd.imageRef, cmd.command)
  }

  function ReadMemory(s: string): Option<nat> {
    if s == "" || s[|s| - 1] != 'k' then None else ParseUnsigned(s[..|s| - 1], U32_MAX)
  }

  /** The arguments that do not depend on the command. */
  predicate HasFixedArgs(args: seq<string>)
    requires |args| >= 12
  {
    && args[0] == "run" && args[1] == "--rm"
    && args[2] == "--runtime"
    && args[4] == "--network"
    && args[7] == "--cpus"
    && args[9] == "--memory"
  }

  function ReadArgs(args: seq<string>): Option<Rendered> {
    if |args| < 12 || !HasFixedArgs(args) then None
    else
      match (ReadThousandths(args[8]), ReadMemory(args[10]))
      case (Some(cpu), Some(memory)) =>
        Some(Rendered(args[3], args[5] == "none", args[6] == "--read-only", cpu, memory, args[11], args[12..]))
      case _ => None
  }

  lemma MemoryRoundTrip(memoryKb: nat)
    requires memoryKb <= U32_MAX
    ensures ReadMemory(MemoryText(memoryKb)) == Some(memoryKb)
  {
    ParseOfDec(memoryKb, U32_MAX);
    assert MemoryText(memoryKb)[..|MemoryText(memoryKb)| - 1] == Dec(memoryKb);
  }

  lemma CpuRoundTrip(cpuMillis: nat)
    requires cpuMillis <= U32_MAX
    ensures ReadThousandths(CpuText(cpuMillis)) == Some(cpuMillis)
  {
    QuotientPrintsExactly(cpuMillis);
    ThousandthsRoundTrip(cpuMillis);
  }

  /** For every command built by `new`, of any length, the runtime, the network and root file system
      flags, the CPU and memory limits, the image and the whole command are read back. */
  lemma ArgsReadBack(imageRef: string, command: seq<string>, policy: SandboxPolicy)
    requires FitsU32(policy) && New(imageRef, command, policy).Ok?
    ensures var cmd := New(imageRef, command, policy).value;
            ReadArgs(Options(cmd) + cmd.command) == Some(Render(cmd))
  {
    hide CpuText, MemoryText, ReadThousandths, ReadMemory, Trim;
    var cmd := New(imageRef, command, policy).value;
    CpuRoundTrip(policy.cpuMillis);
    MemoryRoundTrip(policy.memoryKb);
    var args := Options(cmd) + cmd.command;
    assert args[8] == CpuText(policy.cpuMillis) && args[10] == MemoryText(policy.memoryKb);
    assert args[12..] == cmd.command;
  }

  /** A command is accepted exactly when runtime and image are not blank, the network is off, the root
      file system is read-only, the three limits are positive, and there is something to run. */
  lemma NewAccepts(imageRef: string, command: seq<string>, policy: SandboxPolicy)
    ensures New(imageRef, command, policy).Ok?
            <==> && !All(policy.runtime, IsWhite)
                 && policy.networkDisabled
                 && policy.readOnlyRootfs
                 && policy.cpuMillis > 0 && policy.memoryKb > 0 && policy.timeLimitMs > 0
                 && !All(imageRef, IsWhite)
                 && |command| > 0
    ensures New(imageRef, command, policy).Ok? ==>
              New(imageRef, command, policy).value == RunCommand(imageRef, command, policy)
  {
    hide Trim;
    BlankTrims(policy.runtime);
    BlankTrims(imageRef);
  }

  /** The arguments of an accepted command switch the network off, make the root file system
      read-only, and carry positive CPU and memory limits. */
  lemma ArgsAreConfined(imageRef: string, command: seq<string>, policy: SandboxPolicy)
    requires FitsU32(policy) && New(imageRef, command, policy).Ok?
    ensures var cmd := New(imageRef, command, policy).value;
            var read := ReadArgs(Options(cmd) + cmd.command);
            && read.Some?
            && read.value.networkDisabled && read.value.readOnlyRootfs
            && read.value.cpuMillis > 0 && read.value.memoryKb > 0
            && |read.value.command| > 0
            && cmd.policy.timeLimitMs > 0
  {
    hide New, ReadArgs, Options;
    NewAccepts(imageRef, command, policy);
    ArgsReadBack(imageRef, command, policy);
  }

  /** Which rule a rejected command breaks: the first in this order. */
  lemma NewErrors(imageRef: string, command: seq<string>, policy: SandboxPolicy)
    requires New(imageRef, command, policy).Err?
    ensures var e := New(imageRef, command, policy).error;
            && (e == RuntimeRequired <==> All(policy.runtime, IsWhite))
            && (e == NetworkMustBeDisabled ==> !policy.networkDisabled)
            && (e == RootfsMustBeReadOnly ==> policy.networkDisabled && !policy.readOnlyRootfs)
            && (e == LimitsMustBePositive ==>
                  && policy.networkDisabled && policy.readOnlyRootfs
                  && (policy.cpuMillis == 0 || policy.memoryKb == 0 || policy.timeLimitMs == 0))
            && (e == ImageRequired || e == CommandRequired ==> Validate(policy).Ok?)
            && (e == ImageRequired <==> Validate(policy).Ok? && All(imageRef, IsWhite))
            && (e == CommandRequired ==> command == [])
  {
    hide Trim;
    BlankTrims(policy.runtime);
    BlankTrims(imageRef);
  }

  /** Two accepted commands have the same arguments exactly when they differ at most in the time
      and output limits, which docker is not told. */
  lemma ArgsDetermineCommand(
    imageRef1: string, command1: seq<string>, policy1: SandboxPolicy,
    imageRef2: string, command2: seq<string>, policy2: SandboxPolicy)
    requires FitsU32(policy1) && New(imageRef1, command1, policy1).Ok?
    requires FitsU32(policy2) && New(imageRef2, command2, policy2).Ok?
    ensures var a, b := New(imageRef1, command1, policy1).value, New(imageRef2, command2, policy2).value;
            Options(a) + a.command == Options(b) + b.command
            <==> a == b.(policy := b.policy.(timeLimitMs := a.policy.timeLimitMs,
                                             outputLimitBytes := a.policy.outputLimitBytes))
  {
    hide CpuText, MemoryText, ReadArgs, Trim;
    ArgsReadBack(imageRef1, command1, policy1);
    ArgsReadBack(imageRef2, command2, policy2);
  }
}
