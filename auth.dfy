/** The authentication handlers a method byte can select: no authentication, and the username/password
    sub-negotiation of section 2 of RFC 1929. Logins and passwords are held as their UTF-8 encodings. */
module Auth {
  import opened Wire
  import opened Streams

  /** `AuthenticationBase` and its two subclasses; `users` maps a login to its password. */
  datatype AuthHandler = NoAuthentication | PasswordAuthentication(users: map<Bytes, Bytes>)

  /** The credential test: the login is known and its password matches exactly. */
  predicate Accepts(users: map<Bytes, Bytes>, login: Bytes, password: Bytes)
  {
    login in users && users[login] == password
  }

  /** The reply to a credential check: `01 00` on success, `01 FF` on failure. */
  function PasswordReply(ok: bool): (r: Bytes)
    ensures |r| == 2 && r[0] == 0x01
    ensures r[1] == 0x00 <==> ok
  {
    if ok then [0x01, 0x00] else [0x01, 0xFF]
  }

  /** `n = (await reader.read(1))[0]` followed by `await reader.read(n)`: a one-byte length, then up to
      that many bytes. An exhausted stream raises IndexError at the index. */
  function LengthPrefixed(s: Bytes): (r: Step<Bytes>)
    ensures r.result.Raised? <==> |s| == 0
    ensures r.result.Raised? ==> r.result.exc == IndexError && r.rest == []
    ensures r.out == []
    ensures |r.rest| <= |s|
    ensures |s| > 0 ==> s[1..] == r.result.value + r.rest && |r.result.value| == Min(s[0] as int, |s| - 1)
  {
    if |s| == 0 then Step(Raised(IndexError), [], [])
    else Step(Ok(Take(s[1..], s[0] as int)), Drop(s[1..], s[0] as int), [])
  }

  /** `PasswordAuthentication.authenticate` on the unread input `s`: VER, then ULEN UNAME and PLEN PASSWD
      as two length-prefixed fields, with short reads taking what is left. */
  function PasswordExchange(users: map<Bytes, Bytes>, s: Bytes): (r: Step<bool>)
    ensures r.result.Raised? <==> |s| <= 1 || |s| <= 2 + s[1] as int
    ensures r.result.Raised? ==> r.result.exc == IndexError && r.out == []
    ensures r.result.Ok? ==> r.out == PasswordReply(r.result.value)
    ensures |r.rest| <= |s|
  {
    var login := LengthPrefixed(Drop(s, 1));
    if login.result.Raised? then Step(Raised(IndexError), login.rest, [])
    else
      var password := LengthPrefixed(login.rest);
      if password.result.Raised? then Step(Raised(IndexError), password.rest, [])
      else
        var ok := Accepts(users, login.result.value, password.result.value);
        Step(Ok(ok), password.rest, PasswordReply(ok))
  }

  /** A well-formed sub-negotiation request is consumed exactly, whatever its version byte, and is
      accepted exactly when the credentials match. */
  lemma PasswordWireFormat(users: map<Bytes, Bytes>, version: byte, login: Bytes, password: Bytes, rest: Bytes)
    requires |login| < 256 && |password| < 256
    ensures PasswordExchange(users, [version, |login| as byte] + login + [|password| as byte] + password + rest)
         == Step(Ok(Accepts(users, login, password)), rest, PasswordReply(Accepts(users, login, password)))
  {
    var s := [version, |login| as byte] + login + [|password| as byte] + password + rest;
    var tail := [|password| as byte] + password + rest;
    assert Drop(s, 1) == [|login| as byte] + login + tail;
    FieldReadsBack(login, tail);
    FieldReadsBack(password, rest);
  }

  /** A field written as its length and its bytes reads back exactly. */
  lemma FieldReadsBack(field: Bytes, rest: Bytes)
    requires |field| < 256
    ensures LengthPrefixed([|field| as byte] + field + rest) == Step(Ok(field), rest, [])
  {
    var s := [|field| as byte] + field + rest;
    assert s[1..] == field + rest;
    assert Take(s[1..], |field|) == field;
    assert Drop(s[1..], |field|) == rest;
  }

  /** How a handler runs on the unread input `s`: NoAuthentication succeeds reading and writing nothing. */
  function Exchange(h: AuthHandler, s: Bytes): (r: Step<bool>)
    ensures h.NoAuthentication? ==> r == Step(Ok(true), s, [])
    ensures h.PasswordAuthentication? ==> r == PasswordExchange(h.users, s)
  {
    match h
    case NoAuthentication => Step(Ok(true), s, [])
    case PasswordAuthentication(users) => PasswordExchange(users, s)
  }

  /** One length-prefixed field read from the stream (ULEN UNAME, or PLEN PASSWD). */
  method ReadLengthPrefixed(reader: Reader) returns (r: Result<Bytes>)
    requires reader.Valid()
    modifies reader
    ensures reader.Valid()
    ensures r == LengthPrefixed(old(reader.Remaining())).result
    ensures reader.Remaining() == LengthPrefixed(old(reader.Remaining())).rest
  {
    var b := reader.Read(1);
    if |b| == 0 {
      return Raised(IndexError);
    }
    assert b[0] == old(reader.Remaining())[0];
    var field := reader.Read(b[0] as int);
    r := Ok(field);
  }

  /** `PasswordAuthentication.authenticate(reader, writer)`: five reads, then one reply. */
  method PasswordAuthenticate(users: map<Bytes, Bytes>, reader: Reader, writer: Writer) returns (r: Result<bool>)
    requires reader.Valid()
    modifies reader, writer
    ensures reader.Valid()
    ensures r == PasswordExchange(users, old(reader.Remaining())).result
    ensures reader.Remaining() == PasswordExchange(users, old(reader.Remaining())).rest
    ensures writer.data == old(writer.data) + PasswordExchange(users, old(reader.Remaining())).out
    ensures writer.closed == old(writer.closed)
  {
    var _ := reader.Read(1);
    var login := ReadLengthPrefixed(reader);
    if login.Raised? {
      return Raised(IndexError);
    }
    var password := ReadLengthPrefixed(reader);
    if password.Raised? {
      return Raised(IndexError);
    }
    if !(login.value in users) || users[login.value] != password.value {
      writer.Write([0x01, 0xFF]);
      return Ok(false);
    }
    writer.Write([0x01, 0x00]);
    return Ok(true);
  }

  /** `authenticate(reader, writer)` of whichever handler was selected. */
  method Authenticate(h: AuthHandler, reader: Reader, writer: Writer) returns (r: Result<bool>)
    requires reader.Valid()
    modifies reader, writer
    ensures reader.Valid()
    ensures r == Exchange(h, old(reader.Remaining())).result
    ensures reader.Remaining() == Exchange(h, old(reader.Remaining())).rest
    ensures writer.data == old(writer.data) + Exchange(h, old(reader.Remaining())).out
    ensures writer.closed == old(writer.closed)
  {
    match h
    case NoAuthentication =>
      r := Ok(true);
    case PasswordAuthentication(users) =>
      r := PasswordAuthenticate(users, reader, writer);
  }
}
