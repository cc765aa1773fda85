/** One client's session: method negotiation (section 3 of RFC 1928), the request and its address
    (sections 4 and 5), and the version gate the server applies before the session starts.
    Each step is given twice: as a function of the unread input, and as a method of `Socks5Client` that
    performs it with successive reads and writes and is proved to agree with the function. */
module Client {
  import opened Wire
  import opened Streams
  import opened Enums
  import opened Packets
  import opened Auth
  import opened Server

  /** The address `_read_address` returns: the packed IPv4 bytes, the domain name's bytes, or the packed IPv6 bytes. */
  datatype Address = Ipv4(packed: Bytes) | Domain(name: Bytes) | Ipv6(packed: Bytes)

  /** A CONNECT request that passed every check: where the client wants to go. */
  datatype ConnectRequest = ConnectRequest(address: Address, port: nat)

  /** `_INVALID_COMMAND`: a COMMAND_NOT_SUPPORTED reply with address 0.0.0.0 and port 0. */
  const InvalidCommand: Bytes := [0x05, 0x07, 0x00, 0x01, 0x00, 0x00, 0x00, 0x00, 0x00, 0x00]

  /** `_INVALID_ADDRESS`: the same with ADDRESS_NOT_SUPPORTED. */
  const InvalidAddress: Bytes := [0x05, 0x08, 0x00, 0x01, 0x00, 0x00, 0x00, 0x00, 0x00, 0x00]

  /** The two precomputed replies are what `CommandReply.write` makes of those fields. */
  lemma InvalidRepliesAreCommandReplies()
    ensures WriteCommandReply(CommandReply(CommandNotSupported, IPv4, [0, 0, 0, 0], 0)) == Ok(InvalidCommand)
    ensures WriteCommandReply(CommandReply(AddressNotSupported, IPv4, [0, 0, 0, 0], 0)) == Ok(InvalidAddress)
  {
    var c := WriteCommandReply(CommandReply(CommandNotSupported, IPv4, [0, 0, 0, 0], 0)).value;
    var a := WriteCommandReply(CommandReply(AddressNotSupported, IPv4, [0, 0, 0, 0], 0)).value;
    assert |c| == 10 && c[..4] == [0x05, 0x07, 0x00, 0x01] && c[4..8] == [0, 0, 0, 0];
    assert |a| == 10 && a[..4] == [0x05, 0x08, 0x00, 0x01] && a[4..8] == [0, 0, 0, 0];
    ZeroPortBytes(c[8..]);
    ZeroPortBytes(a[8..]);
    assert c == c[..4] + c[4..8] + c[8..];
    assert a == a[..4] + a[4..8] + a[8..];
    assert c == InvalidCommand && a == InvalidAddress;
  }

  lemma ZeroPortBytes(bs: Bytes)
    requires |bs| == 2 && FromBigEndian(bs) == 0
    ensures bs == [0x00, 0x00]
  {
    assert bs[..1][..0] == [];
  }

  /** `_read_address` on the unread input `s`, whose IPv6 branch reads `ipv6ReadLength` bytes and then
      hands them to `inet_ntop(AF_INET6, ...)`, which accepts exactly 16. The code as written reads 4. */
  function AddressParseWith(s: Bytes, ipv6ReadLength: nat): (r: Step<Option<Address>>)
    ensures r.out == []
    ensures |r.rest| <= |s|
    ensures |s| == 0 ==> r.result == Raised(UnpackError)
    ensures |s| > 0 && AddressTypeOf(s[0]).None? ==> r == Step(Ok(None), s[1..], [])
    ensures r.result.Ok? && r.result.value.Some? ==> AddressTypeOf(s[0]).Some?
    ensures r.result.Raised? ==> r.result.exc == UnpackError || r.result.exc == PackedLengthError
  {
    if |s| == 0 then Step(Raised(UnpackError), s, [])
    else
      var t := s[1..];
      match AddressTypeOf(s[0])
      case None => Step(Ok(None), t, [])
      case Some(IPv4) =>
        var packed := Take(t, 4);
        Step(if |packed| == 4 then Ok(Some(Ipv4(packed))) else Raised(PackedLengthError), Drop(t, 4), [])
      case Some(DomainName) =>
        if |t| == 0 then Step(Raised(UnpackError), t, [])
        else Step(Ok(Some(Domain(Take(t[1..], t[0] as int)))), Drop(t[1..], t[0] as int), [])
      case Some(IPv6) =>
        var packed := Take(t, ipv6ReadLength);
        Step(if |packed| == 16 then Ok(Some(Ipv6(packed))) else Raised(PackedLengthError), Drop(t, ipv6ReadLength), [])
  }

  /** `_read_address` as written: the IPv6 branch reads 4 bytes. */
  function AddressParse(s: Bytes): (r: Step<Option<Address>>)
    ensures r.result.Ok? && r.result.value.Some? ==> !r.result.value.value.Ipv6?
  {
    AddressParseWith(s, 4)
  }

  /** `_read_address` as evidently intended: the IPv6 branch reads 16 bytes. */
  function AddressParseCorrected(s: Bytes): (r: Step<Option<Address>>)
    ensures r.result.Ok? && r.result.value.Some? && r.result.value.value.Ipv6? ==> |r.result.value.value.packed| == 16
    ensures |s| > 0 && s[0] == 0x04 && |s| >= 17 ==> r == Step(Ok(Some(Ipv6(s[1..17]))), s[17..], [])
  {
    assert |s| >= 17 ==> s[1..][..16] == s[1..17] && s[1..][16..] == s[17..];
    AddressParseWith(s, 16)
  }

  /** The address a command reply carries, as `_read_address` would return it. */
  function AddressOf(p: CommandReply): Address
  {
    match p.addressType
    case IPv4 => Ipv4(p.address)
    case DomainName => Domain(p.address)
    case IPv6 => Ipv6(p.address)
  }

  /** The address bytes of a command reply, followed by anything, read back to the reply's address;
      the port bytes are left unread. */
  lemma ReplyAddressReadsBackWith(p: CommandReply, rest: Bytes, ipv6ReadLength: nat)
    requires WriteCommandReply(p).Ok?
    requires p.addressType.IPv6? ==> ipv6ReadLength == 16
    ensures var w := WriteCommandReply(p).value;
            AddressParseWith(w[3..] + rest, ipv6ReadLength) == Step(Ok(Some(AddressOf(p))), w[|w| - 2..] + rest, [])
  {
    var w := WriteCommandReply(p).value;
    var field := AddressField(p.addressType, p.address).value;
    assert w == w[..4] + field + w[|w| - 2..];
    assert w[3..] + rest == [AddressTypeCode(p.addressType)] + field + (w[|w| - 2..] + rest);
    AddressFieldReadsBack(p, w[|w| - 2..] + rest, ipv6ReadLength);
  }

  /** The type tag and address field of a reply, followed by anything, read back as that address. */
  lemma AddressFieldReadsBack(p: CommandReply, tail: Bytes, ipv6ReadLength: nat)
    requires AddressFits(p.addressType, p.address)
    requires p.addressType.IPv6? ==> ipv6ReadLength == 16
    ensures AddressParseWith([AddressTypeCode(p.addressType)] + AddressField(p.addressType, p.address).value + tail, ipv6ReadLength)
         == Step(Ok(Some(AddressOf(p))), tail, [])
  {
    var field := AddressField(p.addressType, p.address).value;
    var s := [AddressTypeCode(p.addressType)] + field + tail;
    AddressTypeRoundTrip(p.addressType);
    var t := s[1..];
    assert t == field + tail;
    match p.addressType
    case IPv4 =>
      assert Take(t, 4) == field;
      assert Drop(t, 4) == tail;
    case IPv6 =>
      assert Take(t, 16) == field;
      assert Drop(t, 16) == tail;
    case DomainName =>
      assert t[1..] == p.address + tail;
      assert Take(t[1..], t[0] as int) == p.address;
      assert Drop(t[1..], t[0] as int) == tail;
  }

  /** As written, IPv4 and domain replies read back to their address. */
  lemma ReplyAddressReadsBack(p: CommandReply, rest: Bytes)
    requires WriteCommandReply(p).Ok? && !p.addressType.IPv6?
    ensures var w := WriteCommandReply(p).value;
            AddressParse(w[3..] + rest) == Step(Ok(Some(AddressOf(p))), w[|w| - 2..] + rest, [])
  {
    ReplyAddressReadsBackWith(p, rest, 4);
  }

  /** As written, no IPv6 address reads back: after the type byte only 4 bytes are read, which
      `inet_ntop` rejects, and 12 bytes of the address are left unread. */
  lemma Ipv6ReplyDoesNotReadBack(p: CommandReply, rest: Bytes)
    requires WriteCommandReply(p).Ok? && p.addressType.IPv6?
    ensures var w := WriteCommandReply(p).value;
            AddressParse(w[3..] + rest) == Step(Raised(PackedLengthError), w[8..] + rest, [])
  {
    var w := WriteCommandReply(p).value;
    var s := w[3..] + rest;
    assert s[0] == AddressTypeCode(IPv6);
    assert s[1..][4..] == w[8..] + rest;
  }

  /** With the 16-byte read, every well-formed reply address reads back, IPv6 included. */
  lemma CorrectedReplyAddressReadsBack(p: CommandReply, rest: Bytes)
    requires WriteCommandReply(p).Ok?
    ensures var w := WriteCommandReply(p).value;
            AddressParseCorrected(w[3..] + rest) == Step(Ok(Some(AddressOf(p))), w[|w| - 2..] + rest, [])
  {
    ReplyAddressReadsBackWith(p, rest, 16);
  }

  /** `handle_connection_request` on the unread input `s`: VER CMD RSV, the address, a two-byte port,
      all read before anything is checked; then the command is checked before the address. */
  function RequestParse(s: Bytes): (r: Step<ConnectRequest>)
    ensures r.out == [] || r.out == InvalidCommand || r.out == InvalidAddress
    ensures r.out != [] ==> r.result == Raised(Disconnection)
    ensures r.result == Raised(Disconnection) ==> r.out != []
    ensures |r.rest| <= |s|
  {
    // VER is read with read(1); the unpacking read of CMD is the first to fail on a short stream.
    if |s| < 2 then Step(Raised(UnpackError), [], [])
    else
      var cmd := s[1];
      var a := AddressParse(Drop(s[2..], 1));
      if a.result.Raised? then Step(Raised(a.result.exc), a.rest, [])
      else
        var port := FromBigEndian(Take(a.rest, 2));
        var rest := Drop(a.rest, 2);
        var command := CommandTypeOf(cmd);
        if command.None? || command.value != Connect then Step(Raised(Disconnection), rest, InvalidCommand)
        else if a.result.value.None? then Step(Raised(Disconnection), rest, InvalidAddress)
        else Step(Ok(ConnectRequest(a.result.value.value, port)), rest, [])
  }

  /** A complete IPv4 or domain request is consumed exactly: CONNECT yields the address and port,
      any other command byte the COMMAND_NOT_SUPPORTED reply. */
  lemma RequestWireFormat(version: byte, cmd: byte, reserved: byte, p: CommandReply, rest: Bytes)
    requires WriteCommandReply(p).Ok? && !p.addressType.IPv6?
    ensures var w := WriteCommandReply(p).value;
            RequestParse([version, cmd, reserved] + w[3..] + rest)
            == if cmd == 0x01 then Step(Ok(ConnectRequest(AddressOf(p), p.port as nat)), rest, [])
               else Step(Raised(Disconnection), rest, InvalidCommand)
  {
    var w := WriteCommandReply(p).value;
    var s := [version, cmd, reserved] + w[3..] + rest;
    assert Drop(s, 1)[0] == cmd;
    assert Drop(Drop(s, 1)[1..], 1) == w[3..] + rest;
    ReplyAddressReadsBack(p, rest);
    var portAndRest := w[|w| - 2..] + rest;
    assert Take(portAndRest, 2) == w[|w| - 2..];
    assert Drop(portAndRest, 2) == rest;
  }

  /** An unknown address type consumes only its type byte (then the port is read), and the command is
      judged first: a bad command is reported as such even when the address is bad too. */
  lemma CommandCheckedBeforeAddress(version: byte, cmd: byte, reserved: byte, tag: byte, port: Bytes, rest: Bytes)
    requires AddressTypeOf(tag).None? && |port| == 2
    ensures RequestParse([version, cmd, reserved, tag] + port + rest)
         == Step(Raised(Disconnection), rest, if cmd == 0x01 then InvalidAddress else InvalidCommand)
  {
    var s := [version, cmd, reserved, tag] + port + rest;
    assert Drop(s, 1)[0] == cmd;
    var s2 := Drop(Drop(s, 1)[1..], 1);
    assert s2 == [tag] + port + rest;
    assert s2[1..] == port + rest;
    assert Drop(port + rest, 2) == rest;
  }

  /** As written, any request with the IPv6 type raises, whatever its command: even BIND is not rejected cleanly. */
  lemma Ipv6RequestRaises(version: byte, cmd: byte, reserved: byte, rest: Bytes)
    ensures RequestParse([version, cmd, reserved, 0x04] + rest).result == Raised(PackedLengthError)
  {
    var s := [version, cmd, reserved, 0x04] + rest;
    assert Drop(Drop(s, 1)[1..], 1) == [0x04] + rest;
  }

  /** `auth_methods_len, = read(1)` followed by `readexactly(auth_methods_len)`: the client's offer. */
  function ReadOffer(s: Bytes): (r: Step<Bytes>)
    ensures r.out == []
    ensures r.result.Ok? ==> |s| > 0 && |r.result.value| == s[0] as int && s == [s[0]] + r.result.value + r.rest
    ensures r.result.Raised? ==>
              || (|s| == 0 && r.result.exc == UnpackError)
              || (|s| > 0 && |s| - 1 < s[0] as int && r.result.exc == IncompleteReadError && r.rest == [])
  {
    if |s| == 0 then Step(Raised(UnpackError), s, [])
    else
      var n := s[0] as int;
      var t := s[1..];
      if n <= |t| then
        assert s == [s[0]] + t[..n] + t[n..];
        Step(Ok(t[..n]), t[n..], [])
      else Step(Raised(IncompleteReadError), [], [])
  }

  /** What follows the handler's verdict: its method byte when it accepted, Disconnection when it refused. */
  function AfterAuthentication(b: byte, verdict: Result<bool>): (r: Result<byte>)
    ensures r.Ok? <==> verdict == Ok(true)
    ensures r.Ok? ==> r.value == b
    ensures verdict == Ok(false) ==> r == Raised(Disconnection)
    ensures verdict.Raised? ==> r == Raised(verdict.exc)
  {
    match verdict
    case Ok(true) => Ok(b)
    case Ok(false) => Raised(Disconnection)
    case Raised(e) => Raised(e)
  }

  /** `Socks5Client.authenticate` as evidently intended: the selected byte is echoed in the reply before the
      handler runs. */
  function Negotiation(registry: map<byte, AuthHandler>, s: Bytes): (r: Step<byte>)
    ensures r.out == [] <==> ReadOffer(s).result.Raised?
    ensures r.result.Ok? ==> r.result.value in registry && |r.out| >= 2 && r.out[..2] == [0x05, r.result.value]
  {
    var offer := ReadOffer(s);
    if offer.result.Raised? then Step(Raised(offer.result.exc), offer.rest, [])
    else
      match ChooseAuthMethod(registry, offer.result.value)
      case None => Step(Raised(Disconnection), offer.rest, WriteChooseAuthMethod(Member(InvalidMethod)).value)
      case Some((b, h)) =>
        var a := Exchange(h, offer.rest);
        Step(AfterAuthentication(b, a.result), a.rest, SelectionReply(b) + a.out)
  }

  /** `Socks5Client.authenticate` as written: the reply is `ChooseAuthMethod(method_type).write()` with
      `method_type` the plain int taken from the offer. */
  function NegotiationAsWritten(registry: map<byte, AuthHandler>, s: Bytes): (r: Step<byte>)
    ensures r.result.Raised?
    ensures r.out == [] || r.out == [0x05, 0xFF]
  {
    var offer := ReadOffer(s);
    if offer.result.Raised? then Step(Raised(offer.result.exc), offer.rest, [])
    else
      match ChooseAuthMethod(registry, offer.result.value)
      case None => Step(Raised(Disconnection), offer.rest, WriteChooseAuthMethod(Member(InvalidMethod)).value)
      case Some((b, h)) =>
        match WriteChooseAuthMethod(PlainInt(b as int))
        case Raised(e) => Step(Raised(e), offer.rest, [])
        case Ok(reply) =>
          var a := Exchange(h, offer.rest);
          Step(AfterAuthentication(b, a.result), a.rest, reply + a.out)
  }

  /** An offer with no registered method gets exactly `05 FF` and nothing after it is read;
      the code as written behaves the same on this path. */
  lemma NoAcceptableMethod(registry: map<byte, AuthHandler>, offered: Bytes, rest: Bytes)
    requires |offered| < 256
    requires forall i :: 0 <= i < |offered| ==> offered[i] !in registry
    ensures Negotiation(registry, [|offered| as byte] + offered + rest) == Step(Raised(Disconnection), rest, [0x05, 0xFF])
    ensures NegotiationAsWritten(registry, [|offered| as byte] + offered + rest) == Step(Raised(Disconnection), rest, [0x05, 0xFF])
  {
    var s := [|offered| as byte] + offered + rest;
    assert s[1..] == offered + rest;
    assert s[1..][..|offered|] == offered && s[1..][|offered|..] == rest;
    NoAcceptableMethodReply();
  }

  /** When some offered method is registered, the reply `05 <method>` comes first, then the handler's own
      exchange; the session goes on only if the handler accepts. */
  lemma MethodSelected(registry: map<byte, AuthHandler>, offered: Bytes, rest: Bytes)
    requires |offered| < 256
    requires ChooseAuthMethod(registry, offered).Some?
    ensures var (b, h) := ChooseAuthMethod(registry, offered).value;
            var a := Exchange(h, rest);
            Negotiation(registry, [|offered| as byte] + offered + rest)
            == Step(AfterAuthentication(b, a.result), a.rest, [0x05, b] + a.out)
  {
    var s := [|offered| as byte] + offered + rest;
    assert s[1..] == offered + rest;
    assert s[1..][..|offered|] == offered && s[1..][|offered|..] == rest;
  }

  /** As written, every offer that matches a registered method raises AttributeError before anything
      is written: `method_type` is an int, which has no `value`. */
  lemma AsWrittenSelectionRaises(registry: map<byte, AuthHandler>, offered: Bytes, rest: Bytes)
    requires |offered| < 256
    requires ChooseAuthMethod(registry, offered).Some?
    ensures NegotiationAsWritten(registry, [|offered| as byte] + offered + rest) == Step(Raised(AttributeError), rest, [])
  {
    var s := [|offered| as byte] + offered + rest;
    assert s[1..] == offered + rest;
    assert s[1..][..|offered|] == offered && s[1..][|offered|..] == rest;
  }

  /** `Socks5Client.handle`: negotiation, then the request, on what negotiation left unread. */
  function Session(registry: map<byte, AuthHandler>, s: Bytes): (r: Step<ConnectRequest>)
    ensures var n := Negotiation(registry, s);
            |n.out| <= |r.out| && r.out[..|n.out|] == n.out
    ensures r.result.Ok? ==> Negotiation(registry, s).result.Ok?
  {
    var n := Negotiation(registry, s);
    if n.result.Raised? then Step(Raised(n.result.exc), n.rest, n.out)
    else
      var q := RequestParse(n.rest);
      Step(q.result, q.rest, n.out + q.out)
  }

  /** How `handle_client` ends: refused at the version gate, ended by Disconnection, ended by any other
      exception (uncaught), or with a CONNECT request handed to `_handle_connection`. */
  datatype ClientOutcome = VersionRejected | Disconnected | Crashed(exc: Exc) | Connected(request: ConnectRequest)

  /** The end of `handle_client`: its outcome, the input left unread, the bytes written to the client,
      and whether the client's writer was closed. */
  datatype SessionEnd = SessionEnd(outcome: ClientOutcome, rest: Bytes, out: Bytes, closed: bool)

  /** `SocksServer.handle_client` on the client's input `s`. */
  function ClientSession(registry: map<byte, AuthHandler>, s: Bytes): (e: SessionEnd)
    ensures e.closed <==> e.outcome.VersionRejected? || e.outcome.Disconnected?
  {
    if |s| == 0 then SessionEnd(Crashed(IndexError), s, [], false)
    else if s[0] != 0x05 then SessionEnd(VersionRejected, s[1..], [0x05, 0xFF], true)
    else
      var h := Session(registry, s[1..]);
      match h.result
      case Ok(request) => SessionEnd(Connected(request), h.rest, h.out, false)
      case Raised(Disconnection) => SessionEnd(Disconnected, h.rest, h.out, true)
      case Raised(e) => SessionEnd(Crashed(e), h.rest, h.out, false)
  }

  /** A first byte other than 5 gets exactly `05 FF` and a closed writer, and no session runs. */
  lemma WrongVersionRejected(registry: map<byte, AuthHandler>, version: byte, rest: Bytes)
    requires version != 0x05
    ensures ClientSession(registry, [version] + rest) == SessionEnd(VersionRejected, rest, [0x05, 0xFF], true)
  {
    assert ([version] + rest)[1..] == rest;
  }

  /** With no common method the client gets `05 FF`, the session ends by Disconnection, and nothing
      after the offer is read. */
  lemma UnmatchedOfferClosesSession(registry: map<byte, AuthHandler>, offered: Bytes, rest: Bytes)
    requires |offered| < 256
    requires forall i :: 0 <= i < |offered| ==> offered[i] !in registry
    ensures ClientSession(registry, [0x05, |offered| as byte] + offered + rest) == SessionEnd(Disconnected, rest, [0x05, 0xFF], true)
  {
    var s := [0x05, |offered| as byte] + offered + rest;
    assert s[1..] == [|offered| as byte] + offered + rest;
    NoAcceptableMethod(registry, offered, rest);
  }

  /** With the password method selected, wrong credentials get `05 02` then `01 FF`, the session ends
      by Disconnection, and no byte after the credentials is read. */
  lemma WrongPasswordClosesSession(users: map<Bytes, Bytes>, login: Bytes, password: Bytes, rest: Bytes)
    requires |login| < 256 && |password| < 256
    requires !Accepts(users, login, password)
    ensures var registry := map[0x02 := PasswordAuthentication(users)];
            var credentials := [0x01, |login| as byte] + login + [|password| as byte] + password;
            ClientSession(registry, [0x05, 0x01, 0x02] + credentials + rest)
            == SessionEnd(Disconnected, rest, [0x05, 0x02, 0x01, 0xFF], true)
  {
    var registry := map[0x02 := PasswordAuthentication(users)];
    var credentials := [0x01, |login| as byte] + login + [|password| as byte] + password;
    var s := [0x05, 0x01, 0x02] + credentials + rest;
    assert s[1..] == [0x01, 0x02] + credentials + rest;
    PasswordRefused(users, login, password, rest);
    SessionEndsInNegotiation(registry, s);
  }

  /** The negotiation part of the scenario above: `05 02`, then the credential check's `01 FF`. */
  lemma PasswordRefused(users: map<Bytes, Bytes>, login: Bytes, password: Bytes, rest: Bytes)
    requires |login| < 256 && |password| < 256
    requires !Accepts(users, login, password)
    ensures var credentials := [0x01, |login| as byte] + login + [|password| as byte] + password;
            Negotiation(map[0x02 := PasswordAuthentication(users)], [0x01, 0x02] + credentials + rest)
            == Step(Raised(Disconnection), rest, [0x05, 0x02, 0x01, 0xFF])
  {
    var registry := map[0x02 := PasswordAuthentication(users)];
    var credentials := [0x01, |login| as byte] + login + [|password| as byte] + password;
    assert [0x01, 0x02] + credentials + rest == [1 as byte] + [0x02 as byte] + (credentials + rest);
    assert ChooseAuthMethod(registry, [0x02]) == Some((0x02, PasswordAuthentication(users)));
    MethodSelected(registry, [0x02], credentials + rest);
    assert credentials + rest == [0x01, |login| as byte] + login + [|password| as byte] + password + rest;
    PasswordWireFormat(users, 0x01, login, password, rest);
  }

  /** A session whose negotiation raises ends there, with the negotiation's input and output. */
  lemma SessionEndsInNegotiation(registry: map<byte, AuthHandler>, s: Bytes)
    requires |s| > 0 && s[0] == 0x05
    ensures var n := Negotiation(registry, s[1..]);
            n.result == Raised(Disconnection) ==> ClientSession(registry, s) == SessionEnd(Disconnected, n.rest, n.out, true)
  {
  }


  /** With only `NoAuthentication` registered, under 0x00 (`SocksServer(no_auth=True)`), a CONNECT request
      for an IPv4 or domain address reaches `_handle_connection` with that address and port, after the
      single reply `05 00`. */
  lemma NoAuthConnect(p: CommandReply, rest: Bytes)
    requires WriteCommandReply(p).Ok? && !p.addressType.IPv6?
    ensures var w := WriteCommandReply(p).value;
            ClientSession(map[0x00 := NoAuthentication], [0x05, 0x01, 0x00] + [0x05, 0x01, 0x00] + w[3..] + rest)
            == SessionEnd(Connected(ConnectRequest(AddressOf(p), p.port as nat)), rest, [0x05, 0x00], false)
  {
    var registry := map[0x00 := NoAuthentication];
    var w := WriteCommandReply(p).value;
    var request := [0x05, 0x01, 0x00] + w[3..] + rest;
    var s := [0x05, 0x01, 0x00] + [0x05, 0x01, 0x00] + w[3..] + rest;
    assert s[1..] == [1 as byte] + [0x00 as byte] + request;
    assert ChooseAuthMethod(registry, [0x00]) == Some((0x00, NoAuthentication));
    MethodSelected(registry, [0x00], request);
    assert Negotiation(registry, s[1..]) == Step(Ok(0x00), request, [0x05, 0x00]);
    RequestWireFormat(0x05, 0x01, 0x00, p, rest);
    assert RequestParse(request) == Step(Ok(ConnectRequest(AddressOf(p), p.port as nat)), rest, []);
    assert Session(registry, s[1..]) == Step(Ok(ConnectRequest(AddressOf(p), p.port as nat)), rest, [0x05, 0x00]);
  }

  /** A `Socks5Client`: the client's streams and the server whose registry it consults. */
  class Socks5Client {
    const reader: Reader
    const writer: Writer
    const server: SocksServer

    constructor (reader: Reader, writer: Writer, server: SocksServer)
      ensures this.reader == reader && this.writer == writer && this.server == server
    {
      this.reader := reader;
      this.writer := writer;
      this.server := server;
    }

    /** `authenticate`, with the selection reply written as intended (see NegotiationAsWritten). */
    method Authenticate() returns (r: Result<byte>)
      requires reader.Valid()
      modifies reader, writer
      ensures reader.Valid()
      ensures r == Negotiation(server.authMethods, old(reader.Remaining())).result
      ensures reader.Remaining() == Negotiation(server.authMethods, old(reader.Remaining())).rest
      ensures writer.data == old(writer.data) + Negotiation(server.authMethods, old(reader.Remaining())).out
      ensures writer.closed == old(writer.closed)
    {
      ghost var s := reader.Remaining();
      ghost var registry := server.authMethods;
      ghost var offer := ReadOffer(s);
      var count := reader.Read(1);
      if |count| == 0 {
        return Raised(UnpackError);
      }
      var offered := reader.ReadExactly(count[0] as int);
      assert offered == offer.result && reader.Remaining() == offer.rest;
      if offered.Raised? {
        return Raised(offered.exc);
      }
      var choice := ChooseAuthMethod(server.authMethods, offered.value);
      if choice.None? {
        assert Negotiation(registry, s) == Step(Raised(Disconnection), offer.rest, WriteChooseAuthMethod(Member(InvalidMethod)).value);
        writer.Write(WriteChooseAuthMethod(Member(InvalidMethod)).value);
        return Raised(Disconnection);
      }
      var (methodType, authMethod) := choice.value;
      ghost var a := Exchange(authMethod, offer.rest);
      assert Negotiation(registry, s) == Step(AfterAuthentication(methodType, a.result), a.rest, SelectionReply(methodType) + a.out);
      writer.Write(SelectionReply(methodType));
      var verdict := Auth.Authenticate(authMethod, reader, writer);
      AppendAssociative(old(writer.data), SelectionReply(methodType), a.out);
      r := AfterAuthentication(methodType, verdict);
    }

    /** `_read_address`, as written. */
    method ReadAddress() returns (r: Result<Option<Address>>)
      requires reader.Valid()
      modifies reader
      ensures reader.Valid()
      ensures r == AddressParse(old(reader.Remaining())).result
      ensures reader.Remaining() == AddressParse(old(reader.Remaining())).rest
    {
      var tag := reader.Read(1);
      if |tag| == 0 {
        return Raised(UnpackError);
      }
      var addressType := AddressTypeOf(tag[0]);
      if addressType.None? {
        return Ok(None);
      }
      match addressType.value
      case IPv4 =>
        var packed := reader.Read(4);
        r := if |packed| == 4 then Ok(Some(Ipv4(packed))) else Raised(PackedLengthError);
      case DomainName =>
        var length := reader.Read(1);
        if |length| == 0 {
          return Raised(UnpackError);
        }
        var name := reader.Read(length[0] as int);
        r := Ok(Some(Domain(name)));
      case IPv6 =>
        var packed := reader.Read(4);
        r := if |packed| == 16 then Ok(Some(Ipv6(packed))) else Raised(PackedLengthError);
    }

    /** `handle_connection_request`, up to the hand-over to `_handle_connection`. */
    method HandleConnectionRequest() returns (r: Result<ConnectRequest>)
      requires reader.Valid()
      modifies reader, writer
      ensures reader.Valid()
      ensures r == RequestParse(old(reader.Remaining())).result
      ensures reader.Remaining() == RequestParse(old(reader.Remaining())).rest
      ensures writer.data == old(writer.data) + RequestParse(old(reader.Remaining())).out
      ensures writer.closed == old(writer.closed)
    {
      var _ := reader.Read(1);
      var cmd := reader.Read(1);
      if |cmd| == 0 {
        return Raised(UnpackError);
      }
      var _ := reader.Read(1);
      var address := ReadAddress();
      if address.Raised? {
        return Raised(address.exc);
      }
      var portBytes := reader.Read(2);
      var port := FromBigEndian(portBytes);
      var command := CommandTypeOf(cmd[0]);
      if command.None? || command.value != Connect {
        writer.Write(InvalidCommand);
        return Raised(Disconnection);
      }
      if address.value.None? {
        writer.Write(InvalidAddress);
        return Raised(Disconnection);
      }
      r := Ok(ConnectRequest(address.value.value, port));
    }

    /** `handle`: authenticate, then the connection request. */
    method Handle() returns (r: Result<ConnectRequest>)
      requires reader.Valid()
      modifies reader, writer
      ensures reader.Valid()
      ensures r == Session(server.authMethods, old(reader.Remaining())).result
      ensures reader.Remaining() == Session(server.authMethods, old(reader.Remaining())).rest
      ensures writer.data == old(writer.data) + Session(server.authMethods, old(reader.Remaining())).out
      ensures writer.closed == old(writer.closed)
    {
      ghost var s := reader.Remaining();
      ghost var n := Negotiation(server.authMethods, s);
      ghost var written := writer.data;
      var negotiated := Authenticate();
      assert negotiated == n.result && reader.Remaining() == n.rest && writer.data == written + n.out;
      if negotiated.Raised? {
        assert Session(server.authMethods, s) == Step(Raised(n.result.exc), n.rest, n.out);
        return Raised(negotiated.exc);
      }
      ghost var q := RequestParse(n.rest);
      assert Session(server.authMethods, s) == Step(q.result, q.rest, n.out + q.out);
      r := HandleConnectionRequest();
      AppendAssociative(written, n.out, q.out);
    }
  }

  /** `SocksServer.handle_client`: the version gate, then the session; Disconnection closes the writer,
      any other exception escapes with the writer left open. Connect/disconnect notifications are not modelled. */
  method HandleClient(server: SocksServer, reader: Reader, writer: Writer) returns (o: ClientOutcome)
    requires reader.Valid()
    modifies reader, writer
    ensures reader.Valid()
    ensures o == ClientSession(server.authMethods, old(reader.Remaining())).outcome
    ensures reader.Remaining() == ClientSession(server.authMethods, old(reader.Remaining())).rest
    ensures writer.data == old(writer.data) + ClientSession(server.authMethods, old(reader.Remaining())).out
    ensures writer.closed == (old(writer.closed) || ClientSession(server.authMethods, old(reader.Remaining())).closed)
  {
    var version := reader.Read(1);
    if |version| == 0 {
      return Crashed(IndexError);
    }
    if version[0] != 0x05 {
      writer.Write([0x05, 0xFF]);
      writer.Close();
      return VersionRejected;
    }
    var client := new Socks5Client(reader, writer, server);
    var r := client.Handle();
    match r
    case Ok(request) =>
      o := Connected(request);
    case Raised(Disconnection) =>
      writer.Close();
      o := Disconnected;
    case Raised(e) =>
      o := Crashed(e);
  }
}
