/** PacketUtil of the client (lines 38-287): what each call returns, and the calls as the program makes
    them. None is Java's null. */
module ClientPackets {
  import opened Bytes
  import opened JavaBytes
  import opened Crc32
  import opened Messages

  // ----- wrapAuthMessage

  /** Length byte, device id, and 32 bytes of nonce or proof. */
  function Body(m: Message): Outcome<Octets> {
    var tail :=
      if m.messageType == ACCESS_AUTH_REQ then m.clientNonce
      else if m.messageType == CLIENT_PROOF then m.clientProof
      else None;
    if m.deviceID.None? || tail.None? || |tail.value| < 32 then Thrown
    else if m.messageType == ACCESS_AUTH_REQ && m.encryptionAlgorithm == ENCRYPTION_ALGORITHM_AES &&
            (m.encryptionKeyID.None? || m.rootKeyValue.None?) then Thrown
    else Returned([Narrow(|m.deviceID.value|)] + m.deviceID.value + tail.value[..32])
  }

  /** The root keys after a call: an encrypted request registers its key. */
  function RootsAfter(roots: map<string, Octets>, m: Message): map<string, Octets> {
    if Body(m).Returned? && m.messageType == ACCESS_AUTH_REQ && m.encryptionAlgorithm == ENCRYPTION_ALGORITHM_AES
    then roots[Hex(m.encryptionKeyID.value) := m.rootKeyValue.value]
    else roots
  }

  function Plain(m: Message, body: Octets): Octets {
    Frame(m.messageType, m.requestID, m.status, 4 + |body|,
          Header(m.version, m.encryptionAlgorithm, |body|, []) + body)
  }

  function Encrypted(m: Message, keyID: Octets, e: Octets): Octets {
    Frame(m.messageType, m.requestID, m.status, 20 + |e|,
          Header(m.version, m.encryptionAlgorithm, |e|, keyID) + e)
  }

  function RootKey(roots: map<string, Octets>, keyID: Option<Octets>): Option<Octets> {
    if keyID.Some? && Hex(keyID.value) in roots then Some(roots[Hex(keyID.value)]) else None
  }

  function Wrap(c: Cipher, roots: map<string, Octets>, m: Message): Outcome<Option<Octets>> {
    match Body(m)
    case Thrown => Thrown
    case Returned(body) =>
      if m.encryptionAlgorithm == ENCRYPTION_ALGORITHM_DEFAULT then Returned(Some(Plain(m, body)))
      else if m.encryptionAlgorithm == ENCRYPTION_ALGORITHM_AES then
        match RootKey(RootsAfter(roots, m), m.encryptionKeyID)
        case None => Returned(None)
        case Some(key) =>
          match c.encrypt(body, key)
          case None => Returned(None)
          case Some(e) => Returned(Some(Encrypted(m, m.encryptionKeyID.value, e)))
      else Returned(None)
  }

  // ----- checkMessage and unwrapBinaryToAuthMessage

  function CheckMessage(f: Octets): Outcome<bool> {
    if |f| < 1 then Thrown
    else if Signed(f[0]) !in {ACCESS_AUTH_RESP, SERVER_PROOF} then Returned(false)
    else if |f| < 4 then Thrown
    else if Signed(f[3]) != SUCCESS then Returned(false)
    else if |f| < 5 then Thrown
    else Returned(Signed(f[4]) == |f| - 9 && CrcMatches(f))
  }

  /** parseLittleEndianBytes */
  function LeValue(s: Octets): nat {
    if s == [] then 0 else s[0] as int + 256 * LeValue(s[1..])
  }

  /** The fields behind the header. */
  function UnwrapBody(m: Message, body: Octets): Outcome<Message> {
    if body == [] then Thrown
    else
      var n := Signed(body[0]);
      var named := m.(status := SUCCESS, version := 1, deviceIDLength := n, deviceID := Some(Subarray(body, 1, 1 + n)));
      if m.messageType == ACCESS_AUTH_RESP then
        Returned(named.(salt := Some(Subarray(body, 1 + n, 33 + n)),
                        iterationCount := BeValue(Subarray(body, 33 + n, 35 + n)),
                        serverNonce := Some(Subarray(body, 37 + n, |body|))))
      else Returned(named.(serverProof := Some(Subarray(body, 1 + n, 33 + n))))
  }

  /** From the algorithm byte on. Without encryption the body keeps the CRC at its end. */
  function UnwrapData(c: Cipher, roots: map<string, Octets>, f: Octets): Outcome<Option<Message>>
    requires |f| >= 7
  {
    var algorithm := Signed(f[6]);
    var m := Blank().(messageType := Signed(f[0]), requestID := BeValue(Subarray(f, 1, 3)),
                      encryptionAlgorithm := algorithm, messageLength := LeValue(Subarray(f, 7, 9)));
    if algorithm == ENCRYPTION_ALGORITHM_DEFAULT then Nullable(UnwrapBody(m, Subarray(f, 9, |f|)))
    else if algorithm == ENCRYPTION_ALGORITHM_AES then
      var id := Subarray(f, 9, 25);
      match RootKey(roots, Some(id))
      case None => Returned(None)
      case Some(key) =>
        match c.decrypt(Subarray(f, 25, |f| - 4), key)
        case None => Returned(None)
        case Some(body) => Nullable(UnwrapBody(m.(encryptionKeyID := Some(id)), body))
    else Returned(None)
  }

  function Nullable(m: Outcome<Message>): Outcome<Option<Message>> {
    if m.Thrown? then Thrown else Returned(Some(m.value))
  }

  function Unwrap(c: Cipher, roots: map<string, Octets>, f: Octets): Outcome<Option<Message>> {
    match CheckMessage(f)
    case Thrown => Thrown
    case Returned(false) => Returned(None)
    case Returned(true) =>
      if |f| < 6 then Thrown
      else if Signed(f[5]) != 1 then Returned(None)
      else if |f| < 7 then Thrown
      else UnwrapData(c, roots, f)
  }

  // ----- the program

  /** The static ROOT_KEY_MAP and the methods that use it. */
  class PacketUtil {
    var rootKeys: map<string, Octets>

    constructor ()
      ensures rootKeys == map[]
    {
      rootKeys := map[];
    }

    method WrapAuthMessage(c: Cipher, m: AuthenticationMessage) returns (r: Outcome<Option<Octets>>)
      modifies this, m`messageLength
      ensures r == Wrap(c, old(rootKeys), old(m.View()))
      ensures rootKeys == RootsAfter(old(rootKeys), old(m.View()))
    {
      hide Plain, Encrypted, RootKey;
      var body := WrapBody(m);
      if body.Thrown? {
        return Thrown;
      }
      r := WrapInFrame(c, m, body.value);
    }

    /** Up to line 60. */
    method WrapBody(m: AuthenticationMessage) returns (r: Outcome<Octets>)
      modifies this
      ensures r == Body(m.View())
      ensures rootKeys == RootsAfter(old(rootKeys), m.View())
    {
      hide Narrow, Hex;
      if m.deviceID.None? {
        return Thrown;
      }
      var deviceID := m.deviceID.value;
      var messageBody := [Narrow(|deviceID|)] + deviceID;
      if m.messageType == ACCESS_AUTH_REQ {
        if m.clientNonce.None? || |m.clientNonce.value| < 32 {
          return Thrown;
        }
        messageBody := messageBody + m.clientNonce.value[..32];
        if m.encryptionAlgorithm == ENCRYPTION_ALGORITHM_AES {
          if m.encryptionKeyID.None? || m.rootKeyValue.None? {
            return Thrown;
          }
          rootKeys := rootKeys[Hex(m.encryptionKeyID.value) := m.rootKeyValue.value];
        }
      } else if m.messageType == CLIENT_PROOF {
        if m.clientProof.None? || |m.clientProof.value| < 32 {
          return Thrown;
        }
        messageBody := messageBody + m.clientProof.value[..32];
      } else {
        return Thrown;
      }
      r := Returned(messageBody);
    }

    /** The switch on the algorithm, and the CRC. */
    method WrapInFrame(c: Cipher, m: AuthenticationMessage, messageBody: Octets) returns (r: Outcome<Option<Octets>>)
      requires Body(m.View()) == Returned(messageBody)
      requires rootKeys == RootsAfter(rootKeys, m.View())
      modifies m`messageLength
      ensures r == Wrap(c, rootKeys, old(m.View()))
    {
      hide Body, Hex, Header, Frame, RootsAfter;
      if m.encryptionAlgorithm == ENCRYPTION_ALGORITHM_DEFAULT {
        m.messageLength := |messageBody|;
        var f := Assemble(m, 4 + |messageBody|, [], messageBody);
        r := Returned(Some(f));
      } else if m.encryptionAlgorithm == ENCRYPTION_ALGORITHM_AES {
        if m.encryptionKeyID.None? {
          return Returned(None);
        }
        var id := m.encryptionKeyID.value;
        if Hex(id) !in rootKeys {
          return Returned(None);
        }
        var encryptedBody := c.encrypt(messageBody, rootKeys[Hex(id)]);
        if encryptedBody.None? {
          return Returned(None);
        }
        m.messageLength := |encryptedBody.value|;
        var f := Assemble(m, 20 + |encryptedBody.value|, id, encryptedBody.value);
        r := Returned(Some(f));
      } else {
        r := Returned(None);
      }
    }

    /** wrapMessageHeader, the writes of either branch, and the CRC. */
    method Assemble(m: AuthenticationMessage, dataLength: int, keyID: Octets, body: Octets) returns (res: Octets)
      requires m.messageLength == |body|
      ensures res == Frame(m.messageType, m.requestID, m.status, dataLength,
                           Header(m.version, m.encryptionAlgorithm, |body|, keyID) + body)
    {
      hide Narrow, ToBe, CrcBytes, Sealed;
      var header := new ByteBuf();
      header.WriteByte(m.version);
      header.WriteByte(m.encryptionAlgorithm);
      header.WriteShort(m.messageLength);
      header.WriteBytes(keyID);
      assert header.contents == Header(m.version, m.encryptionAlgorithm, |body|, keyID);
      var result := new ByteBuf();
      result.WriteByte(m.messageType);
      result.WriteShort(m.requestID);
      result.WriteByte(m.status);
      result.WriteByte(dataLength);
      result.WriteBytes(header.contents);
      result.WriteBytes(body);
      FrameInPieces(m.messageType, m.requestID, m.status, dataLength, header.contents, body);
      CrcBytesSeal(result.contents);
      res := result.contents + CrcBytes(result.contents);
    }

    method UnwrapBinaryToAuthMessage(c: Cipher, authResponse: Octets) returns (r: Outcome<AuthenticationMessage?>)
      ensures r.Thrown? ==> Unwrap(c, rootKeys, authResponse) == Thrown
      ensures r.Returned? && r.value == null ==> Unwrap(c, rootKeys, authResponse) == Returned(None)
      ensures r.Returned? && r.value != null ==>
                fresh(r.value) && Unwrap(c, rootKeys, authResponse) == Returned(Some(r.value.View()))
    {
      hide CheckMessage, BeValue, LeValue, Signed, Subarray, UnwrapBody, Hex;
      var check := CheckMessage(authResponse);
      if check.Thrown? {
        return Thrown;
      }
      if !check.value {
        return Returned(null);
      }
      if |authResponse| < 6 {
        return Thrown;
      }
      if Signed(authResponse[5]) != 1 {
        return Returned(null);
      }
      if |authResponse| < 7 {
        return Thrown;
      }
      r := UnwrapRest(c, authResponse);
    }

    method UnwrapRest(c: Cipher, authResponse: Octets) returns (r: Outcome<AuthenticationMessage?>)
      requires |authResponse| >= 7
      ensures r.Thrown? ==> UnwrapData(c, rootKeys, authResponse) == Thrown
      ensures r.Returned? && r.value == null ==> UnwrapData(c, rootKeys, authResponse) == Returned(None)
      ensures r.Returned? && r.value != null ==>
                fresh(r.value) && UnwrapData(c, rootKeys, authResponse) == Returned(Some(r.value.View()))
    {
      hide BeValue, LeValue, Signed, Subarray, UnwrapBody, Hex, AuthenticationMessage.View;
      var encryptionAlgorithm := Signed(authResponse[6]);
      var result := new AuthenticationMessage();
      result.Mark(Signed(authResponse[0]), 0);
      result.SetRequest(BeValue(Subarray(authResponse, 1, 3)), LeValue(Subarray(authResponse, 7, 9)));
      result.SetMode(0, encryptionAlgorithm);
      var fixedBody;
      if encryptionAlgorithm == ENCRYPTION_ALGORITHM_DEFAULT {
        fixedBody := Subarray(authResponse, 9, |authResponse|);
      } else if encryptionAlgorithm == ENCRYPTION_ALGORITHM_AES {
        var encryptionKeyId := Subarray(authResponse, 9, 25);
        if Hex(encryptionKeyId) !in rootKeys {
          return Returned(null);
        }
        var body := c.decrypt(Subarray(authResponse, 25, |authResponse| - 4), rootKeys[Hex(encryptionKeyId)]);
        if body.None? {
          return Returned(null);
        }
        fixedBody := body.value;
        result.SetKeys(Some(encryptionKeyId), None);
      } else {
        return Returned(null);
      }
      var ok := UnwrapFields(fixedBody, result);
      if !ok {
        return Thrown;
      }
      r := Returned(result);
    }

    method UnwrapFields(fixedBody: Octets, result: AuthenticationMessage) returns (ok: bool)
      modifies result
      ensures !ok ==> UnwrapBody(old(result.View()), fixedBody) == Thrown
      ensures ok ==> UnwrapBody(old(result.View()), fixedBody) == Returned(result.View())
    {
      hide BeValue, Signed, Subarray, AuthenticationMessage.View;
      if |fixedBody| < 1 {
        return false;
      }
      var deviceIDLength := Signed(fixedBody[0]);
      var offset := 1;
      result.SetName(deviceIDLength, Some(Subarray(fixedBody, offset, offset + deviceIDLength)));
      result.Mark(result.messageType, SUCCESS);
      result.SetMode(1, result.encryptionAlgorithm);
      offset := offset + deviceIDLength;
      if result.messageType == ACCESS_AUTH_RESP {
        var salt := Subarray(fixedBody, offset, offset + 32);
        offset := offset + 32;
        var iterationCount := BeValue(Subarray(fixedBody, offset, offset + 2));
        offset := offset + 4;
        result.SetChallenge(salt, iterationCount, Subarray(fixedBody, offset, |fixedBody|));
      } else {
        result.SetServerProof(Subarray(fixedBody, offset, offset + 32));
      }
      ok := true;
    }
  }

  lemma FrameInPieces(messageType: int, requestID: int, status: int, dataLength: int, header: Octets, body: Octets)
    ensures
      var m := [] + [Narrow(messageType)] + ToBe(requestID, 2) + [Narrow(status)] + [Narrow(dataLength)]
               + header + body;
      Frame(messageType, requestID, status, dataLength, header + body) == Sealed(m)
  {
    hide Narrow, ToBe, Sealed;
    var m := [] + [Narrow(messageType)] + ToBe(requestID, 2) + [Narrow(status)] + [Narrow(dataLength)] + header + body;
    assert m == [Narrow(messageType)] + ToBe(requestID, 2) + [Narrow(status), Narrow(dataLength)] + (header + body);
  }
}
