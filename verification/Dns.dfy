/** Resource records, codes and 32-bit serials. */
module Dns {
  import opened Strings

  const MAX_UINT32 := 0xFFFF_FFFF

  type uint32 = x: int | 0 <= x <= 0xFFFF_FFFF

  /** Unsigned 32-bit x + 1 and x - 1. */
  function Inc(x: uint32): uint32 {
    if x == MAX_UINT32 then 0 else x + 1
  }

  function Dec(x: uint32): uint32 {
    if x == 0 then MAX_UINT32 else x - 1
  }

  const TYPE_A := 1
  const TYPE_SOA := 6
  const TYPE_TXT := 16
  const TYPE_AAAA := 28
  const TYPE_OPT := 41
  const TYPE_RRSIG := 46
  const TYPE_NSEC := 47
  const TYPE_DNSKEY := 48
  const TYPE_TSIG := 250
  const TYPE_ANY := 255
  const TYPE_NS := 2

  const CLASS_INET := 1
  const CLASS_NONE := 254
  const CLASS_ANY := 255

  datatype Rcode = NOERROR | FORMERR | SERVFAIL | NXDOMAIN | REFUSED | YXDOMAIN | YXRRSET | NXRRSET | NOTZONE

  /** Records the server emits; Other stands for every type it only passes through. */
  datatype RR =
    | SOA(name: Str, ttl: uint32, serial: uint32, minttl: uint32)
    | TXT(name: Str, ttl: uint32, strings: seq<Str>)
    | NSEC(name: Str, ttl: uint32, next: Str, bitmap: seq<nat>)
    | DNSKEY(name: Str, ttl: uint32)
    | RRSIG(name: Str, ttl: uint32, covered: nat, origTtl: uint32, signature: Str)
    | Other(name: Str, ttl: uint32, rtype: nat, rdata: Str)
  {
    function Type(): nat {
      match this
      case SOA(_, _, _, _) => TYPE_SOA
      case TXT(_, _, _) => TYPE_TXT
      case NSEC(_, _, _, _) => TYPE_NSEC
      case DNSKEY(_, _) => TYPE_DNSKEY
      case RRSIG(_, _, _, _, _) => TYPE_RRSIG
      case Other(_, _, rtype, _) => rtype
    }
  }

  /** One committed write: the records removed and added at a serial. */
  datatype Delta = Delta(serial: uint32, removed: seq<RR>, added: seq<RR>)
}
