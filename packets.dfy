/** The two reply packets the server serialises: the method-selection reply and the command reply
    (sections 3 and 6 of RFC 1928, with the address layout of its section 5). */
module Packets {
  import opened Wire
  import opened Enums

  /** The protocol version every packet starts with (`BasePacket.VERSION`). */
  const Version: byte := 0x05

  /** The value held in a ChooseAuthMethod packet's `method` slot. Python does not check the declared type:
      it is an AuthMethod member when built from the enumeration, and a plain int when built from a
      byte of the client's offer. */
  datatype MethodValue = Member(auth: AuthMethod) | PlainInt(n: int)

  /** `ChooseAuthMethod(method).write()`: VERSION followed by `method.value`; a plain int has no `value`. */
  function WriteChooseAuthMethod(m: MethodValue): (r: Result<Bytes>)
    ensures r.Ok? <==> m.Member?
    ensures m.PlainInt? ==> r == Raised(AttributeError)
    ensures r.Ok? ==> |r.value| == 2 && r.value[0] == Version && AuthMethodOf(r.value[1]) == Some(m.auth)
  {
    match m
    case Member(a) => Ok([Version, AuthMethodCode(a)])
    case PlainInt(_) => Raised(AttributeError)
  }

  lemma ChooseAuthMethodInjective(m1: AuthMethod, m2: AuthMethod)
    requires WriteChooseAuthMethod(Member(m1)) == WriteChooseAuthMethod(Member(m2))
    ensures m1 == m2
  {
    var w := WriteChooseAuthMethod(Member(m1)).value;
    assert AuthMethodOf(w[1]) == Some(m1) && AuthMethodOf(w[1]) == Some(m2);
  }

  /** The reply to an offer with no acceptable method is exactly `05 FF`. */
  lemma NoAcceptableMethodReply()
    ensures WriteChooseAuthMethod(Member(InvalidMethod)) == Ok([0x05, 0xFF])
  {
  }

  /** The method-selection reply for a chosen method byte, as it is evidently meant to be written:
      VERSION followed by the byte itself. It agrees with the enumeration-based writer wherever
      the byte is a member's code. */
  function SelectionReply(b: byte): (r: Bytes)
    ensures |r| == 2 && r[0] == Version
    ensures forall m: AuthMethod :: AuthMethodCode(m) == b ==> WriteChooseAuthMethod(Member(m)) == Ok(r)
    ensures forall m: AuthMethod :: WriteChooseAuthMethod(Member(m)) == Ok(r) ==> AuthMethodCode(m) == b
  {
    [Version, b]
  }

  /** The fields of a `CommandReply`. For IPv4 and IPv6 `address` holds the packed bytes that
      `inet_aton` / `inet_pton` make of the address text; a packed value of any other length stands for
      text those calls reject. For a domain it holds the name's UTF-8 encoding. */
  datatype CommandReply = CommandReply(status: ReplyStatus, addressType: AddressType, address: Bytes, port: int)

  /** True when the address can be serialised for its type. */
  predicate AddressFits(t: AddressType, address: Bytes)
  {
    match t
    case IPv4 => |address| == 4
    case IPv6 => |address| == 16
    case DomainName => |address| <= 255
  }

  /** The address part of a command reply (the local `address` of `CommandReply.write`):
      packed bytes, or a domain name behind a one-byte length. */
  function AddressField(t: AddressType, address: Bytes): (r: Result<Bytes>)
    ensures r.Ok? <==> AddressFits(t, address)
    ensures r.Raised? ==> r.exc == (if t.DomainName? then ByteRangeError else AddressTextError)
    ensures r.Ok? && !t.DomainName? ==> r.value == address
    ensures r.Ok? && t.DomainName? ==> |r.value| == |address| + 1 && r.value[0] as int == |address| && r.value[1..] == address
  {
    match t
    case IPv4 => if |address| == 4 then Ok(address) else Raised(AddressTextError)
    case IPv6 => if |address| == 16 then Ok(address) else Raised(AddressTextError)
    case DomainName => if |address| <= 255 then Ok([|address| as byte] + address) else Raised(ByteRangeError)
  }

  /** `CommandReply.write()`: VER REP RSV ATYP BND.ADDR BND.PORT. The address is converted before the
      port, so a bad address is reported even when the port is bad too. */
  function WriteCommandReply(p: CommandReply): (r: Result<Bytes>)
    ensures r.Ok? <==> AddressFits(p.addressType, p.address) && 0 <= p.port < 0x1_0000
    ensures !AddressFits(p.addressType, p.address) ==> r == Raised(AddressField(p.addressType, p.address).exc)
    ensures AddressFits(p.addressType, p.address) && !r.Ok? ==> r == Raised(OverflowError)
    ensures r.Ok? ==>
      var w := r.value;
      var field := AddressField(p.addressType, p.address).value;
      && |w| == 6 + |field|
      && w[..4] == [Version, ReplyStatusCode(p.status), 0x00, AddressTypeCode(p.addressType)]
      && w[4..|w| - 2] == field
      && FromBigEndian(w[|w| - 2..]) == p.port
    ensures r.Ok? ==> |r.value| == match p.addressType
                                   case IPv4 => 10
                                   case IPv6 => 22
                                   case DomainName => 7 + |p.address|
  {
    match AddressField(p.addressType, p.address)
    case Raised(e) => Raised(e)
    case Ok(field) =>
      match ToBigEndian2(p.port)
      case Raised(e) => Raised(e)
      case Ok(port) =>
        var w := [Version] + [ReplyStatusCode(p.status), 0x00, AddressTypeCode(p.addressType)] + field + port;
        assert w[4..|w| - 2] == field && w[|w| - 2..] == port;
        Ok(w)
  }
}
