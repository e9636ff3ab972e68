/** PacketUtil of the server (lines 113-310): what each call returns, and the calls as the program makes
    them. */
module ServerPackets {
  import opened Bytes
  import opened JavaBytes
  import opened PassCryp
  import opened Crc32
  import opened Messages

  // ----- the database

  datatype AuthRespInfo = AuthRespInfo(salt: Octets, iterationCount: int)

  /** The columns that authentication reads. Salts, passwords and root keys are stored under passCryp. */
  datatype Database = Database(
    rootKeys: map<Octets, Octets>, challenges: map<string, AuthRespInfo>, passwords: map<string, Octets>)

  /** A query gives a fresh array, which passCryp then changes in place; null when there is no row. */
  method FreshColumn<K(==)>(column: map<K, Octets>, key: K) returns (r: array?<bv8>)
    ensures r == null <==> key !in column
    ensures r != null ==> fresh(r) && r[..] == column[key]
  {
    if key !in column {
      return null;
    }
    var s := column[key];
    r := new bv8[|s|](i requires 0 <= i < |s| => s[i]);
  }

  // ----- unwrapAuthMessage

  /** The name, and the nonce or proof behind it. */
  function UnwrapBody(m: Message, algorithm: int, body: Octets): Outcome<Message> {
    if body == [] then Thrown
    else
      var n := Signed(body[0]);
      var tail := Some(Subarray(body, 1 + n, |body|));
      var carried := if m.messageType == ACCESS_AUTH_REQ then m.(clientNonce := tail) else m.(clientProof := tail);
      Returned(carried.(encryptionAlgorithm := algorithm, deviceIDLength := n, version := 1, status := SUCCESS,
                        deviceID := Some(Subarray(body, 1, 1 + n))))
  }

  /** From the algorithm byte on. `m` is what is returned on failure. */
  function UnwrapData(c: Cipher, rootKeys: map<Octets, Octets>, f: Octets, m: Message): Outcome<Message>
    requires |f| >= 7
  {
    var algorithm, length := Signed(f[6]), BeValue(Subarray(f, 7, 9));
    if algorithm == ENCRYPTION_ALGORITHM_AES then
      var id := Subarray(f, 9, 25);
      if length != |f| - 29 || id !in rootKeys then Returned(m)
      else
        match c.decrypt(Subarray(f, 25, |f| - 4), Crypted(rootKeys[id]))
        case None => Returned(m)
        case Some(body) => UnwrapBody(m.(encryptionKeyID := Some(id)), algorithm, body)
    else if length != |f| - 13 then Returned(m)
    else UnwrapBody(m, algorithm, Subarray(f, 9, |f| - 4))
  }

  /** From the status byte on. */
  function UnwrapChecked(c: Cipher, rootKeys: map<Octets, Octets>, f: Octets, m: Message): Outcome<Message>
    requires |f| >= 4
  {
    if Signed(f[3]) != SUCCESS then Returned(m)
    else if |f| < 5 then Thrown
    else if Signed(f[4]) != |f| - 9 || !CrcMatches(f) then Returned(m)
    else if |f| < 6 then Thrown
    else if Signed(f[5]) != 1 then Returned(m)
    else if |f| < 7 then Thrown
    else UnwrapData(c, rootKeys, f, m)
  }

  /** unwrapAuthMessage. An index outside the array throws. */
  function Unwrap(c: Cipher, rootKeys: map<Octets, Octets>, f: Octets): Outcome<Message> {
    var blank := Blank().(status := FAILURE);
    if |f| < 1 then Thrown
    else if Signed(f[0]) !in {ACCESS_AUTH_REQ, CLIENT_PROOF} then Returned(blank)
    else if |f| < 4 then Thrown
    else UnwrapChecked(c, rootKeys, f, blank.(messageType := Signed(f[0]), requestID := BeValue(Subarray(f, 1, 3))))
  }

  method UnwrapAuthMessage(c: Cipher, db: Database, authRequest: Octets) returns (r: Outcome<AuthenticationMessage>)
    ensures r.Thrown? ==> Unwrap(c, db.rootKeys, authRequest) == Thrown
    ensures r.Returned? ==> fresh(r.value) && Unwrap(c, db.rootKeys, authRequest) == Returned(r.value.View())
  {
    hide UnwrapChecked, BeValue, Signed, Subarray;
    var result := new AuthenticationMessage();
    result.status := FAILURE;
    if |authRequest| < 1 {
      return Thrown;
    }
    var messageType := Signed(authRequest[0]);
    if messageType != ACCESS_AUTH_REQ && messageType != CLIENT_PROOF {
      return Returned(result);
    }
    if |authRequest| < 4 {
      return Thrown;
    }
    var requestID := BeValue(Subarray(authRequest, 1, 3));
    result.messageType := messageType;
    result.requestID := requestID;
    r := UnwrapChecks(c, db, authRequest, result);
  }

  method UnwrapChecks(c: Cipher, db: Database, authRequest: Octets, result: AuthenticationMessage)
    returns (r: Outcome<AuthenticationMessage>)
    requires |authRequest| >= 4
    modifies result
    ensures r.Thrown? ==> UnwrapChecked(c, db.rootKeys, authRequest, old(result.View())) == Thrown
    ensures r.Returned? ==> r.value == result
    ensures r.Returned? ==> UnwrapChecked(c, db.rootKeys, authRequest, old(result.View())) == Returned(result.View())
  {
    hide UnwrapData, CrcMatches, Signed, AuthenticationMessage.View;
    var status := Signed(authRequest[3]);
    if status != SUCCESS {
      return Returned(result);
    }
    if |authRequest| < 5 {
      return Thrown;
    }
    var dataLength := Signed(authRequest[4]);
    var actualDataLength := |authRequest| - 9;
    if dataLength != actualDataLength {
      return Returned(result);
    }
    if !CrcMatches(authRequest) {
      return Returned(result);
    }
    if |authRequest| < 6 {
      return Thrown;
    }
    var version := Signed(authRequest[5]);
    if version != 1 {
      return Returned(result);
    }
    if |authRequest| < 7 {
      return Thrown;
    }
    r := UnwrapRest(c, db, authRequest, result);
  }

  method UnwrapRest(c: Cipher, db: Database, authRequest: Octets, result: AuthenticationMessage)
    returns (r: Outcome<AuthenticationMessage>)
    requires |authRequest| >= 7
    modifies result
    ensures r.Thrown? ==> UnwrapData(c, db.rootKeys, authRequest, old(result.View())) == Thrown
    ensures r.Returned? ==> r.value == result
    ensures r.Returned? ==> UnwrapData(c, db.rootKeys, authRequest, old(result.View())) == Returned(result.View())
  {
    hide BeValue, Signed, Subarray, Crypted;
    var encryptionAlgorithm := Signed(authRequest[6]);
    var messageLength := BeValue(Subarray(authRequest, 7, 9));
    var actualLength := |authRequest| - 13;
    var fixedBody;
    if encryptionAlgorithm == 1 {
      actualLength := actualLength - 16;
      if messageLength != actualLength {
        return Returned(result);
      }
      var encryptionKeyID := Subarray(authRequest, 9, 25);
      var encRootKey := FreshColumn(db.rootKeys, encryptionKeyID);
      if encRootKey == null {
        return Returned(result);
      }
      PassCrypInPlace(encRootKey);
      var body := c.decrypt(Subarray(authRequest, 25, |authRequest| - 4), encRootKey[..]);
      if body.None? {
        return Returned(result);
      }
      fixedBody := body.value;
      result.encryptionKeyID := Some(encryptionKeyID);
    } else {
      if messageLength != actualLength {
        return Returned(result);
      }
      fixedBody := Subarray(authRequest, 9, |authRequest| - 4);
    }
    r := UnwrapName(fixedBody, encryptionAlgorithm, result);
  }

  method UnwrapName(fixedBody: Octets, encryptionAlgorithm: int, result: AuthenticationMessage)
    returns (r: Outcome<AuthenticationMessage>)
    modifies result
    ensures r.Thrown? ==> UnwrapBody(old(result.View()), encryptionAlgorithm, fixedBody) == Thrown
    ensures r.Returned? ==> r.value == result
    ensures r.Returned? ==> UnwrapBody(old(result.View()), encryptionAlgorithm, fixedBody) == Returned(result.View())
  {
    hide Signed, Subarray, AuthenticationMessage.View;
    if |fixedBody| < 1 {
      return Thrown;
    }
    var deviceIDLength := Signed(fixedBody[0]);
    var offset := 1;
    var deviceID := Subarray(fixedBody, offset, offset + deviceIDLength);
    offset := offset + deviceIDLength;
    if result.messageType == ACCESS_AUTH_REQ {
      result.SetClientNonce(Subarray(fixedBody, offset, |fixedBody|));
    } else {
      result.SetClientProof(Subarray(fixedBody, offset, |fixedBody|));
    }
    result.SetMode(1, encryptionAlgorithm);
    result.SetName(deviceIDLength, Some(deviceID));
    result.Mark(result.messageType, SUCCESS);
    r := Returned(result);
  }

  // ----- wrapAuthMessage and wrapMessageStatus

  /** The four bytes of wrapMessageStatus; alone, they are the answer to a refused message. */
  function StatusFrame(messageType: int, requestID: int, status: int): (r: Octets)
    ensures |r| == 4
  {
    [Narrow(messageType)] + BigEndianShort(requestID) + [Narrow(status)]
  }

  /** Status bytes, data length, data, CRC. */
  function Sealing(m: Message, data: Octets): Octets {
    Sealed(StatusFrame(m.messageType, m.requestID, m.status) + [Narrow(|data|)] + data)
  }

  function Wrap(c: Cipher, rootKeys: map<Octets, Octets>, m: Message, body: Octets): Outcome<Octets> {
    var refusal := StatusFrame(m.messageType + 1, m.requestID, FAILURE);
    if m.encryptionAlgorithm == ENCRYPTION_ALGORITHM_AES then
      match m.encryptionKeyID
      case None => Thrown
      case Some(id) =>
        if id !in rootKeys then Returned(refusal)
        else
          match c.encrypt(body, Crypted(rootKeys[id]))
          case None => Returned(refusal)
          case Some(e) => Returned(Sealing(m, Header(m.version, m.encryptionAlgorithm, |e|, id) + e))
    else Returned(Sealing(m, Header(m.version, m.encryptionAlgorithm, |body|, []) + body))
  }

  method WrapMessageStatus(messageType: int, requestID: int, status: int) returns (r: Octets)
    ensures r == StatusFrame(messageType, requestID, status)
  {
    hide Narrow;
    var statusBytes := new bv8[4](i => 0);
    statusBytes[0] := Narrow(messageType);
    var short := BigEndianShort(requestID);
    statusBytes[1] := short[0];
    statusBytes[2] := short[1];
    statusBytes[3] := Narrow(status);
    r := statusBytes[..];
  }

  method WrapAuthMessage(c: Cipher, db: Database, m: AuthenticationMessage, messageBody: Octets)
    returns (r: Outcome<Octets>)
    ensures r == Wrap(c, db.rootKeys, m.View(), messageBody)
  {
    hide ToBe, Narrow, StatusFrame, Crypted, Sealing;
    var authDataBuf := new ByteBuf();
    authDataBuf.WriteByte(m.version);
    var algorithm := m.encryptionAlgorithm;
    authDataBuf.WriteByte(algorithm);
    if algorithm == 1 {
      if m.encryptionKeyID.None? {
        return Thrown;
      }
      var encryptedKeyID := m.encryptionKeyID.value;
      var encRootKey := FreshColumn(db.rootKeys, encryptedKeyID);
      if encRootKey == null {
        var refusal := WrapMessageStatus(m.messageType + 1, m.requestID, FAILURE);
        return Returned(refusal);
      }
      PassCrypInPlace(encRootKey);
      var fixedBody := c.encrypt(messageBody, encRootKey[..]);
      if fixedBody.None? {
        var refusal := WrapMessageStatus(m.messageType + 1, m.requestID, FAILURE);
        return Returned(refusal);
      }
      authDataBuf.WriteShort(|fixedBody.value|);
      authDataBuf.WriteBytes(encryptedKeyID);
      authDataBuf.WriteBytes(fixedBody.value);
      HeaderOf(m.version, algorithm, |fixedBody.value|, encryptedKeyID);
    } else {
      authDataBuf.WriteShort(|messageBody|);
      authDataBuf.WriteBytes(messageBody);
      HeaderOf(m.version, algorithm, |messageBody|, []);
    }
    var response := Seal(m, authDataBuf.contents);
    r := Returned(response);
  }

  lemma HeaderOf(version: int, algorithm: int, length: int, keyID: Octets)
    ensures [] + [Narrow(version)] + [Narrow(algorithm)] + ToBe(length, 2) + keyID ==
            Header(version, algorithm, length, keyID)
    ensures Header(version, algorithm, length, []) == [] + [Narrow(version)] + [Narrow(algorithm)] + ToBe(length, 2)
  {
    hide Narrow, ToBe;
  }

  /** Length, data and CRC behind the status bytes. */
  method Seal(m: AuthenticationMessage, authData: Octets) returns (response: Octets)
    ensures response == Sealing(m.View(), authData)
  {
    hide Narrow, CrcBytes, StatusFrame, Sealed;
    var resultBuf := new ByteBuf();
    var statusBytes := WrapMessageStatus(m.messageType, m.requestID, m.status);
    resultBuf.WriteBytes(statusBytes);
    resultBuf.WriteByte(|authData|);
    resultBuf.WriteBytes(authData);
    var data := resultBuf.contents;
    assert data == StatusFrame(m.messageType, m.requestID, m.status) + [Narrow(|authData|)] + authData;
    CrcBytesSeal(data);
    response := data + CrcBytes(data);
  }

  /** For the request ids the server reads off a frame, sealing builds the common frame layout. */
  lemma SealingIsFrame(m: Message, data: Octets)
    requires m.requestID >= 0
    ensures Sealing(m, data) == Frame(m.messageType, m.requestID, m.status, |data|, data)
  {
    hide Narrow, ToBe, Sealed, BigEndianShort;
    ShortsAgree(m.requestID);
    assert StatusFrame(m.messageType, m.requestID, m.status) + [Narrow(|data|)] + data ==
           [Narrow(m.messageType)] + ToBe(m.requestID, 2) + [Narrow(m.status), Narrow(|data|)] + data;
  }
}
