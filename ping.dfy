/** `pingDevice` (`src/utils/network/device/ping-device.ts`): one ICMP echo
    request through the system's `ping`. Running the command is an oracle
    that says whether it completed without error within the time allowed. */
module Ping {
  import opened Js
  import opened Wrappers

  /** The timeout when the caller gives none, in milliseconds. */
  const DefaultTimeout: int := 1000

  /** `Math.ceil(timeout / 1000)`: whole seconds, rounded up. */
  function CeilSeconds(timeout: int): (r: int)
    ensures 1000 * (r - 1) < timeout <= 1000 * r
  {
    if timeout % 1000 == 0 then timeout / 1000 else timeout / 1000 + 1
  }

  /** `ping -n 1 -w <ms> <ip>` on Windows, `ping -c 1 -W <s> <ip>` elsewhere. */
  function PingCommand(isWindows: bool, ip: string, timeout: int): string
  {
    if isWindows then "ping -n 1 -w " + IntToString(timeout) + " " + ip
    else "ping -c 1 -W " + IntToString(CeilSeconds(timeout)) + " " + ip
  }

  /** The time the command may run: half a second more than the ping's own. */
  function ExecTimeout(timeout: int): int
  {
    timeout + 500
  }

  /** `pingDevice`: `true` when the command completes, `false` on any
      failure; what it prints is not read. `exec(cmd, limit)` is whether
      `cmd` completed without error within `limit` milliseconds. */
  function PingDevice(isWindows: bool, ip: string, timeout: Option<int>, exec: (string, int) -> bool): bool
  {
    var t := if timeout.Some? then timeout.value else DefaultTimeout;
    exec(PingCommand(isWindows, ip, t), ExecTimeout(t))
  }

  // ---------------------------------------------------------------------
  // Properties
  // ---------------------------------------------------------------------

  /** The seconds are the least whole number of seconds covering the
      timeout: 1500 ms is 2 s, 100 ms is 1 s, 10000 ms is 10 s. */
  lemma CeilSecondsLeast(timeout: int, r: int)
    requires timeout <= 1000 * r
    ensures CeilSeconds(timeout) <= r
  {
  }

  lemma CeilSecondsExamples()
    ensures CeilSeconds(1500) == 2 && CeilSeconds(100) == 1 && CeilSeconds(10000) == 10
    ensures CeilSeconds(1000) == 1 && CeilSeconds(0) == 0
  {
  }

  /** The command runs with a budget half a second beyond the timeout, and
      with the default timeout when none is given. */
  lemma PingRuns(isWindows: bool, ip: string, timeout: Option<int>, exec: (string, int) -> bool)
    ensures var t := if timeout.Some? then timeout.value else 1000;
      PingDevice(isWindows, ip, timeout, exec) <==> exec(PingCommand(isWindows, ip, t), t + 500)
  {
  }

  /** Both commands send one request and end with the address. */
  lemma PingCommandShape(isWindows: bool, ip: string, timeout: int)
    ensures var cmd := PingCommand(isWindows, ip, timeout);
      |cmd| > 10 + |ip| && cmd[..10] == (if isWindows then "ping -n 1 " else "ping -c 1 ") &&
      cmd[|cmd| - |ip|..] == ip
  {
  }

  /** `ping -c 1 -W 2 <ip>` for 1500 ms on Linux. */
  lemma LinuxExample(ip: string)
    ensures PingCommand(false, ip, 1500) == "ping -c 1 -W 2 " + ip
  {
    assert IntToString(2) == "2";
  }
}
