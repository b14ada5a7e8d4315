/** The IP classifier `validate_ip`. The address-literal parser it wraps
    (Python's `ipaddress.ip_address`) is a parameter: for a string it either
    builds an IPv4 or an IPv6 address object or raises. */
module IpAddr {
  import opened Frame

  datatype ParseOutcome =
    | ParsedV4                // an `IPv4Address` object
    | ParsedV6                // an `IPv6Address` object
    | RaisedValueError        // the literal is not an address
    | RaisedOther             // any other exception escaping the parser

  const IPV4 := "IPv4"
  const IPV6 := "IPv6"
  const NOT_IP := "NotIP"

  /** Classifies `address` as one of "IPv4", "IPv6" or "NotIP"; no failure
      of the parser escapes. */
  function ValidateIp(parse: string -> ParseOutcome, address: string): (r: string)
    ensures r == IPV4 || r == IPV6 || r == NOT_IP
    ensures r == IPV4 <==> parse(address) == ParsedV4
    ensures r == IPV6 <==> parse(address) == ParsedV6
    ensures r == NOT_IP <==> parse(address) in {RaisedValueError, RaisedOther}
  {
    match parse(address)
    case ParsedV4 => IPV4
    case ParsedV6 => IPV6
    case RaisedValueError => NOT_IP
    case RaisedOther => NOT_IP
  }

  /** `validate_ip` applied to a table cell. A missing cell reaches the
      parser as a float NaN, which it rejects with a `ValueError`. */
  function ValidateCell(parse: string -> ParseOutcome, host: Cell): (r: string)
    ensures host.Missing? ==> r == NOT_IP
    ensures host.Val? ==> r == ValidateIp(parse, host.text)
  {
    match host
    case Missing => NOT_IP
    case Val(s) => ValidateIp(parse, s)
  }
}
