/**
 * The argument vector `scan_subnet` starts nmap with: host discovery only,
 * no name resolution, ICMP echo/timestamp/netmask probes, TCP SYN and ACK
 * probes and UDP probes on fixed port lists, a minimum packet rate and a
 * retry bound, and grepable output on standard output, with the subnet
 * token as the last argument.
 */
module NmapCommand {

  /** The fixed discovery flags, in the order they are passed. */
  const DiscoveryFlags: seq<string> := [
    "-sn",
    "-n",
    "-PE",
    "-PP",
    "-PM",
    "-PS21,22,23,80,135,139,443,445,3389,5900,8080,8443",
    "-PA80,443,3389",
    "-PU53,67,123,135,137,161,445,631,1434,1900,4500,5353",
    "--min-rate", "200",
    "--max-retries", "2"
  ]

  /** The command `["nmap"] + discovery_flags + ["-oG", "-", subnet]`. */
  function Command(subnet: string): (cmd: seq<string>)
    ensures |cmd| == 16
    ensures cmd[0] == "nmap" && cmd[|cmd| - 1] == subnet
    ensures cmd[1 .. 13] == DiscoveryFlags
    ensures cmd[|cmd| - 3 .. |cmd| - 1] == ["-oG", "-"]
  {
    ["nmap"] + DiscoveryFlags + ["-oG", "-", subnet]
  }

  /** The subnet is the only part of the command that depends on it: two
      commands differ exactly when their subnets do, and agree everywhere
      else. */
  lemma CommandDependsOnlyOnSubnet(a: string, b: string)
    ensures Command(a)[..15] == Command(b)[..15]
    ensures Command(a) == Command(b) <==> a == b
  {
    assert Command(a)[15] == a && Command(b)[15] == b;
  }
}
