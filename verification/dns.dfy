/** Reverse lookups (`nslookup_ip`) and the custom-nameserver setting
    (`set_dns_server`, `check_custom_dns`).

    The process-wide resolver of the source is modelled as a value: the
    active nameserver setting is passed to every lookup, and configuring it
    returns the new setting instead of assigning a global. The PTR query
    itself (reverse-name construction plus the network round trip) is a
    parameter `ptr`: for a setting and an IPv4 address it either fails or
    yields the answer names. */
module Dns {
  import opened Outcomes
  import opened Frame
  import opened IpAddr

  /** The nameservers the resolver sends queries to. */
  datatype DnsSetting = SystemDefault | Custom(nameservers: seq<string>)

  /** What a PTR query yields: an exception of any kind, or the answers. */
  datatype PtrAnswer = PtrFailed | PtrAnswers(names: seq<string>)

  const UNRESOLVED := "Unable to Resolve"
  const UNRESOLVED_V6 := "Unable to Resolve IPv6"

  /** The text a lookup writes into the table, and the addresses it sent to
      the PTR resolver (at most one). */
  datatype Lookup = Lookup(display: string, queries: seq<string>)

  /** `nslookup_ip`: the first PTR answer for an IPv4 address, and a fixed
      sentinel for everything else. Only an IPv4 address is queried, once;
      no failure escapes. */
  function NsLookup(parse: string -> ParseOutcome, ptr: (DnsSetting, string) -> PtrAnswer,
                    setting: DnsSetting, host: Cell): (r: Lookup)
    ensures |r.queries| <= 1
    ensures r.queries != [] <==> ValidateCell(parse, host) == IPV4
    ensures r.queries != [] ==> r.queries == [host.text]
    ensures ValidateCell(parse, host) == IPV6 ==> r.display == UNRESOLVED_V6
    ensures ValidateCell(parse, host) == NOT_IP ==> r.display == UNRESOLVED
    ensures ValidateCell(parse, host) == IPV4 ==>
      var answer := ptr(setting, host.text);
      if answer.PtrAnswers? && |answer.names| > 0 then r.display == answer.names[0]
      else r.display == UNRESOLVED
  {
    if ValidateCell(parse, host) == IPV4 then
      var answer := ptr(setting, host.text);
      // indexing an empty answer raises, which the catch-all turns into the sentinel
      var shown := if answer.PtrAnswers? && |answer.names| > 0 then answer.names[0] else UNRESOLVED;
      Lookup(shown, [host.text])
    else if ValidateCell(parse, host) == IPV6 then
      Lookup(UNRESOLVED_V6, [])
    else
      Lookup(UNRESOLVED, [])
  }

  /** The pair `set_dns_server` returns: whether the installed nameserver
      reads back as the requested one, and the nameserver read back. */
  datatype SetReply = SetReply(ok: bool, resolver: Option<string>)

  /** `set_dns_server`: an IPv4 address becomes the only nameserver and is
      confirmed; anything else leaves the setting alone and returns nothing. */
  function SetDnsServer(parse: string -> ParseOutcome, setting: DnsSetting, address: string)
    : (r: (DnsSetting, Option<SetReply>))
    ensures ValidateIp(parse, address) == IPV4 ==>
      r.0 == Custom([address]) && r.1 == Some(SetReply(true, Some(address)))
    ensures ValidateIp(parse, address) != IPV4 ==> r.0 == setting && r.1 == None
  {
    if ValidateIp(parse, address) == IPV4 then
      var installed := Custom([address]);
      var resolver := installed.nameservers[0];
      (installed, Some(SetReply(resolver == address, Some(resolver))))
    else
      (setting, None)
  }

  /** The `dns lookup` / `server` entry of the configuration, when both its
      `enabled` and `address` keys are present. */
  datatype ServerConfig = ServerConfig(enabled: bool, address: string)

  /** Which message `check_custom_dns` reports. */
  datatype DnsReport =
    | ResolverSet(address: string)
    | ResolverError
    | CustomDisabled
    | ConfigMissingOrInvalid

  /** `check_custom_dns`: installs the configured nameserver when the entry
      is present, enabled and an IPv4 address; otherwise the setting is left
      as it was. A non-IPv4 address makes `set_dns_server` return nothing,
      whose unpacking raises and lands in the handler for a missing or
      invalid entry. */
  function CheckCustomDns(parse: string -> ParseOutcome, server: Option<ServerConfig>, setting: DnsSetting)
    : (r: (DnsSetting, DnsReport))
    ensures server.None? ==> r == (setting, ConfigMissingOrInvalid)
    ensures server.Some? && !server.value.enabled ==> r == (setting, CustomDisabled)
    ensures server.Some? && server.value.enabled ==>
      if ValidateIp(parse, server.value.address) == IPV4
      then r == (Custom([server.value.address]), ResolverSet(server.value.address))
      else r == (setting, ConfigMissingOrInvalid)
  {
    match server
    case None => (setting, ConfigMissingOrInvalid)
    case Some(entry) =>
      if !entry.enabled then (setting, CustomDisabled)
      else
        var (installed, reply) := SetDnsServer(parse, setting, entry.address);
        match reply
        case None => (installed, ConfigMissingOrInvalid)
        case Some(SetReply(true, Some(resolver))) => (installed, ResolverSet(resolver))
        case Some(_) => (installed, ResolverError)
  }
}
