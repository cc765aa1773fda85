/** The byte-coded enumerations of the protocol: each member's code, and the lookup from a byte back to
    its member (`Enum._value2member_map_`, or `Enum(b)`), which yields None for a byte that is no member's code. */
module Enums {
  import opened Wire

  datatype AuthMethod = NoAuth | Gssapi | Password | InvalidMethod

  function AuthMethodCode(m: AuthMethod): byte
  {
    match m
    case NoAuth => 0x00
    case Gssapi => 0x01
    case Password => 0x02
    case InvalidMethod => 0xFF
  }

  function AuthMethodOf(b: byte): (r: Option<AuthMethod>)
    ensures r.Some? ==> AuthMethodCode(r.value) == b
    ensures r.None? <==> forall m: AuthMethod :: AuthMethodCode(m) != b
  {
    if b == 0x00 then Some(NoAuth)
    else if b == 0x01 then Some(Gssapi)
    else if b == 0x02 then Some(Password)
    else if b == 0xFF then Some(InvalidMethod)
    else assert forall m: AuthMethod :: AuthMethodCode(m) != b; None
  }

  lemma AuthMethodCodeInjective(m1: AuthMethod, m2: AuthMethod)
    ensures AuthMethodCode(m1) == AuthMethodCode(m2) <==> m1 == m2
  {
  }

  lemma AuthMethodRoundTrip(m: AuthMethod)
    ensures AuthMethodOf(AuthMethodCode(m)) == Some(m)
  {
  }

  datatype AddressType = IPv4 | DomainName | IPv6

  function AddressTypeCode(t: AddressType): byte
  {
    match t
    case IPv4 => 0x01
    case DomainName => 0x03
    case IPv6 => 0x04
  }

  function AddressTypeOf(b: byte): (r: Option<AddressType>)
    ensures r.Some? ==> AddressTypeCode(r.value) == b
    ensures r.Some? <==> b == 0x01 || b == 0x03 || b == 0x04
  {
    if b == 0x01 then Some(IPv4)
    else if b == 0x03 then Some(DomainName)
    else if b == 0x04 then Some(IPv6)
    else None
  }

  lemma AddressTypeCodeInjective(t1: AddressType, t2: AddressType)
    ensures AddressTypeCode(t1) == AddressTypeCode(t2) <==> t1 == t2
  {
  }

  lemma AddressTypeRoundTrip(t: AddressType)
    ensures AddressTypeOf(AddressTypeCode(t)) == Some(t)
  {
  }

  datatype CommandType = Connect | Bind | UdpAssociate

  function CommandTypeCode(c: CommandType): byte
  {
    match c
    case Connect => 0x01
    case Bind => 0x02
    case UdpAssociate => 0x03
  }

  function CommandTypeOf(b: byte): (r: Option<CommandType>)
    ensures r.Some? ==> CommandTypeCode(r.value) == b
    ensures r.Some? <==> 0x01 <= b <= 0x03
  {
    if b == 0x01 then Some(Connect)
    else if b == 0x02 then Some(Bind)
    else if b == 0x03 then Some(UdpAssociate)
    else None
  }

  lemma CommandTypeCodeInjective(c1: CommandType, c2: CommandType)
    ensures CommandTypeCode(c1) == CommandTypeCode(c2) <==> c1 == c2
  {
  }

  lemma CommandTypeRoundTrip(c: CommandType)
    ensures CommandTypeOf(CommandTypeCode(c)) == Some(c)
  {
  }

  datatype ReplyStatus =
    | Success
    | ServerFailure
    | NotAllowed
    | NetworkUnreachable
    | HostUnreachable
    | ConnectionRefused
    | TtlExpired
    | CommandNotSupported
    | AddressNotSupported

  function ReplyStatusCode(s: ReplyStatus): byte
  {
    match s
    case Success => 0x00
    case ServerFailure => 0x01
    case NotAllowed => 0x02
    case NetworkUnreachable => 0x03
    case HostUnreachable => 0x04
    case ConnectionRefused => 0x05
    case TtlExpired => 0x06
    case CommandNotSupported => 0x07
    case AddressNotSupported => 0x08
  }

  function ReplyStatusOf(b: byte): (r: Option<ReplyStatus>)
    ensures r.Some? ==> ReplyStatusCode(r.value) == b
    ensures r.Some? <==> b <= 0x08
  {
    match b
    case 0x00 => Some(Success)
    case 0x01 => Some(ServerFailure)
    case 0x02 => Some(NotAllowed)
    case 0x03 => Some(NetworkUnreachable)
    case 0x04 => Some(HostUnreachable)
    case 0x05 => Some(ConnectionRefused)
    case 0x06 => Some(TtlExpired)
    case 0x07 => Some(CommandNotSupported)
    case 0x08 => Some(AddressNotSupported)
    case _ => None
  }

  lemma ReplyStatusCodeInjective(s1: ReplyStatus, s2: ReplyStatus)
    ensures ReplyStatusCode(s1) == ReplyStatusCode(s2) <==> s1 == s2
  {
  }

  lemma ReplyStatusRoundTrip(s: ReplyStatus)
    ensures ReplyStatusOf(ReplyStatusCode(s)) == Some(s)
  {
  }
}
