/** The address record a host name resolves to (pkg/record/record.go). */
module Record {

  /** The record types the table holds: A for IPv4 and AAAA for IPv6 (section 2.1 of RFC 3596). */
  datatype DNSType = A | AAAA

  /** An address as written in the hosts file, with the record type it was classified as. */
  datatype DNSRecord = DNSRecord(ip: string, ipType: DNSType)
}
