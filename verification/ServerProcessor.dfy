/** AuthenticationProcessor of the server: challenges stored per device, and the check of the proof. */
module ServerProcessor {
  import opened Bytes
  import opened JavaBytes
  import opened PassCryp
  import opened Messages
  import opened Algorithms
  import opened ServerPackets

  /** What a step answers: the message for the client, the fields of the MessageObject that are set, and the
      session, if one is granted. */
  datatype Reply = Reply(message: Octets, messageType: Option<int>, sessionId: Option<Octets>, session: Option<Session>)

  /** A step and what it leaves in AUTH_ASSIST_MAP. */
  datatype Stepped = Stepped(reply: Outcome<Reply>, pending: map<string, Octets>)

  // ----- what the methods compute

  /** appendAuthInfo: name, client nonce, salt, 16-bit count, server nonce. A short array throws. */
  function AuthInfo(m: Message): Outcome<Octets> {
    if m.deviceID.None? || m.clientNonce.None? || m.salt.None? || m.serverNonce.None? then Thrown
    else if !(0 <= m.deviceIDLength <= |m.deviceID.value|) then Thrown
    else if |m.clientNonce.value| < 32 || |m.salt.value| < 32 || |m.serverNonce.value| < 32 then Thrown
    else Returned(m.deviceID.value[..m.deviceIDLength] + m.clientNonce.value[..32] + m.salt.value[..32] +
                  LittleEndianShort(m.iterationCount) + m.serverNonce.value[..32])
  }

  function WithChallenge(m: Message, info: AuthRespInfo, nonce: Octets): Message {
    m.(salt := Some(Crypted(info.salt)), serverNonce := Some(nonce), iterationCount := info.iterationCount,
       messageType := ACCESS_AUTH_RESP, status := SUCCESS)
  }

  function ChallengeOf(m: Message): Octets
    requires AuthInfo(m).Returned?
  {
    ChallengeBody(m.deviceID.value[..m.deviceIDLength], m.salt.value[..32], m.iterationCount, m.serverNonce.value[..32])
  }

  /** generateAuthResponseMessage: the answer, and AUTH_ASSIST_MAP afterwards. */
  function RequestStep(c: Cipher, db: Database, pending: map<string, Octets>, m: Message, nonce: Bytes32)
    : (Outcome<Octets>, map<string, Octets>)
  {
    if m.status != SUCCESS then (Returned(StatusFrame(ACCESS_AUTH_RESP, m.requestID, m.status)), pending)
    else if m.deviceID.None? then (Thrown, pending)
    else
      var d := Hex(m.deviceID.value);
      if d !in db.challenges then (Returned(StatusFrame(ACCESS_AUTH_RESP, m.requestID, FAILURE)), pending)
      else
        var r := WithChallenge(m, db.challenges[d], nonce);
        match AuthInfo(r)
        case Thrown => (Thrown, pending)
        case Returned(info) => (Wrap(c, db.rootKeys, r, ChallengeOf(r)), pending[d := info])
  }

  /** generateSessionInfo */
  function SessionOf(p: Primitives, key: Octets, info: Octets, d: string): Outcome<Session> {
    var n := |d| / 2;
    var id := GetXor(Subarray(info, n, n + 32), Subarray(info, |info| - 32, |info|), 16);
    var sessionKey := Mac(p, key, info);
    if id.Thrown? || sessionKey.None? then Thrown else Returned(Session(d, Hex(id.value), sessionKey.value))
  }

  /** checkClientAuthentication, for a stored challenge and password. */
  function CheckProof(p: Primitives, password: Octets, info: Octets, proof: Octets,
                      d: string): Outcome<Option<Session>> {
    match Mac(p, password, info)
    case None => if proof == [] then Returned(None) else Thrown
    case Some(hmac) =>
      match GetXor(proof, hmac, |proof|)
      case Thrown => Thrown
      case Returned(key) =>
        if p.sha256(key) != password then Returned(None)
        else
          match SessionOf(p, key, info, d)
          case Thrown => Thrown
          case Returned(s) => Returned(Some(s))
  }

  function Check(p: Primitives, db: Database, pending: map<string, Octets>, proof: Option<Octets>, d: string)
    : Outcome<Option<Session>>
  {
    if d !in pending || d !in db.passwords then Returned(None)
    else if proof.None? then Thrown
    else CheckProof(p, Crypted(db.passwords[d]), pending[d], proof.value, d)
  }

  /** generateServerProofMessage; the entry is removed on acceptance and on rejection, but not when it throws. */
  function ProofStep(p: Primitives, c: Cipher, db: Database, pending: map<string, Octets>, m: Message): Stepped {
    if m.status != SUCCESS then
      Stepped(Returned(Reply(StatusFrame(SERVER_PROOF, m.requestID, m.status), None, None, None)), pending)
    else if m.deviceID.None? then Stepped(Thrown, pending)
    else
      var d := Hex(m.deviceID.value);
      match Check(p, db, pending, m.clientProof, d)
      case Thrown => Stepped(Thrown, pending)
      case Returned(None) =>
        Stepped(Returned(Reply(StatusFrame(SERVER_PROOF, m.requestID, FAILURE), None, None, None)), pending - {d})
      case Returned(Some(s)) =>
        if !(0 <= m.deviceIDLength <= |m.deviceID.value|) then Stepped(Thrown, pending)
        else
          match Wrap(c, db.rootKeys, m.(messageType := SERVER_PROOF),
                     ProofBody(m.deviceID.value[..m.deviceIDLength], s.sessionKey))
          case Thrown => Stepped(Thrown, pending)
          case Returned(f) =>
            Stepped(Returned(Reply(f, Some(SERVER_PROOF), Some(Unhex(s.sessionId)), Some(s))), pending - {d})
  }

  /** processAuthencaition, on the bytes of one message and a fresh server nonce. */
  function Step(p: Primitives, c: Cipher, db: Database, pending: map<string, Octets>, f: Octets,
                nonce: Bytes32): Stepped {
    match Unwrap(c, db.rootKeys, f)
    case Thrown => Stepped(Thrown, pending)
    case Returned(m) =>
      if m.messageType == ACCESS_AUTH_REQ then
        var (answer, after) := RequestStep(c, db, pending, m, nonce);
        Stepped(if answer.Thrown? then Thrown
                else Returned(Reply(answer.value, Some(ACCESS_AUTH_RESP), None, None)), after)
      else ProofStep(p, c, db, pending, m)
  }

  // ----- the program

  class MessageObject {
    var messageType: int
    var sessionId: Option<Octets>
    var message: Octets

    constructor (message: Octets)
      ensures this.message == message && sessionId == None && messageType == 0
    {
      this.message, sessionId, messageType := message, None, 0;
    }
  }

  class AuthenticationProcessor {
    const algorithm: Primitives
    const security: Cipher
    const db: Database
    var authAssistMap: map<string, Octets>

    constructor (algorithm: Primitives, security: Cipher, db: Database)
      ensures authAssistMap == map[]
      ensures this.algorithm == algorithm && this.security == security && this.db == db
    {
      this.algorithm, this.security, this.db, authAssistMap := algorithm, security, db, map[];
    }

    method ProcessAuthencaition(messageObject: MessageObject, nonce: Bytes32) returns (r: Outcome<Option<Session>>)
      modifies this, messageObject
      ensures
        var s := Step(algorithm, security, db, old(authAssistMap), old(messageObject.message), nonce);
        && authAssistMap == s.pending && Reports(r, messageObject, s.reply)
      ensures r.Thrown? ==> unchanged(messageObject)
    {
      hide Unwrap, RequestStep, ProofStep, AuthenticationMessage.View;
      var received := UnwrapAuthMessage(security, db, messageObject.message);
      if received.Thrown? {
        return Thrown;
      }
      var m := received.value;
      if m.messageType == ACCESS_AUTH_REQ {
        var responseBody := GenerateAuthResponseMessage(m, nonce);
        if responseBody.Thrown? {
          return Thrown;
        }
        messageObject.messageType := ACCESS_AUTH_RESP;
        messageObject.message := responseBody.value;
        r := Returned(None);
      } else {
        r := GenerateServerProofMessage(messageObject, m);
      }
    }

    /** The result and the message object show this reply; fields that a reply does not set are as before. */
    twostate predicate Reports(new r: Outcome<Option<Session>>, o: MessageObject, reply: Outcome<Reply>)
      reads o
    {
      && (r.Thrown? <==> reply.Thrown?)
      && (r.Returned? && reply.Returned? ==>
            && r.value == reply.value.session
            && o.message == reply.value.message
            && o.messageType == (if reply.value.messageType.Some? then reply.value.messageType.value
                                 else old(o.messageType))
            && o.sessionId == if reply.value.sessionId.Some? then reply.value.sessionId else old(o.sessionId))
    }

    method GenerateAuthResponseMessage(m: AuthenticationMessage, nonce: Bytes32) returns (r: Outcome<Octets>)
      modifies this`authAssistMap, m
      ensures (r, authAssistMap) == RequestStep(security, db, old(authAssistMap), old(m.View()), nonce)
    {
      hide Wrap, StatusFrame, Crypted, Hex, AuthInfo, ChallengeOf;
      if m.status != SUCCESS {
        m.messageType := ACCESS_AUTH_RESP;
        var s := WrapMessageStatus(m.messageType, m.requestID, m.status);
        return Returned(s);
      }
      if m.deviceID.None? {
        return Thrown;
      }
      var deviceID := Hex(m.deviceID.value);
      if deviceID !in db.challenges {
        m.status := FAILURE;
        m.messageType := ACCESS_AUTH_RESP;
        var s := WrapMessageStatus(m.messageType, m.requestID, m.status);
        return Returned(s);
      }
      r := Respond(m, deviceID, db.challenges[deviceID], nonce);
    }

    /** From the query result on. */
    method Respond(m: AuthenticationMessage, deviceID: string, authRespInfo: AuthRespInfo, nonce: Bytes32)
      returns (r: Outcome<Octets>)
      modifies this`authAssistMap, m
      ensures
        var sent := WithChallenge(old(m.View()), authRespInfo, nonce);
        match AuthInfo(sent)
        case Thrown => r == Thrown && authAssistMap == old(authAssistMap)
        case Returned(info) =>
          && r == Wrap(security, db.rootKeys, sent, ChallengeOf(sent)) &&
            authAssistMap == old(authAssistMap)[deviceID := info]
    {
      hide Wrap, AuthInfo, ChallengeOf, WithChallenge, AuthenticationMessage.View;
      SetChallenge(m, authRespInfo, nonce);
      var ok := AppendAuthInfo(m, deviceID);
      if !ok {
        return Thrown;
      }
      var responseBody := ResponseBody(m);
      r := WrapAuthMessage(security, db, m, responseBody);
    }

    method SetChallenge(m: AuthenticationMessage, authRespInfo: AuthRespInfo, nonce: Bytes32)
      modifies m
      ensures m.View() == WithChallenge(old(m.View()), authRespInfo, nonce)
    {
      hide Crypted, AuthenticationMessage.View;
      var decSalt := DecryptedColumn(authRespInfo.salt);
      m.SetChallenge(decSalt, authRespInfo.iterationCount, nonce);
      m.Mark(ACCESS_AUTH_RESP, SUCCESS);
    }

    /** passCryp on the fresh array that a query returned. */
    method DecryptedColumn(stored: Octets) returns (r: Octets)
      ensures r == Crypted(stored)
    {
      var a := new bv8[|stored|](i requires 0 <= i < |stored| => stored[i]);
      assert a[..] == stored;
      PassCrypInPlace(a);
      r := a[..];
    }

    /** appendAuthInfo: five copies at a moving offset. */
    method AppendAuthInfo(m: AuthenticationMessage, deviceID: string) returns (ok: bool)
      modifies this`authAssistMap
      ensures ok == AuthInfo(m.View()).Returned?
      ensures authAssistMap == if ok then old(authAssistMap)[deviceID := AuthInfo(m.View()).value]
              else old(authAssistMap)
    {
      hide LittleEndianShort;
      if m.deviceID.None? || m.clientNonce.None? || m.salt.None? || m.serverNonce.None? || m.deviceIDLength < 0 {
        return false;
      }
      var a := new bv8[m.deviceIDLength + 98](i => 0);
      ok := ArrayCopy(m.deviceID.value, a, 0, m.deviceIDLength);
      if !ok {
        return;
      }
      assert a[..m.deviceIDLength] == m.deviceID.value[..m.deviceIDLength];
      var offset := m.deviceIDLength;
      ok := ArrayCopy(m.clientNonce.value, a, offset, 32);
      if !ok {
        return;
      }
      offset := offset + 32;
      ok := ArrayCopy(m.salt.value, a, offset, 32);
      if !ok {
        return;
      }
      offset := offset + 32;
      var iterationCountBytes := LittleEndianShort(m.iterationCount);
      ok := ArrayCopy(iterationCountBytes, a, offset, 2);
      offset := offset + 2;
      ok := ArrayCopy(m.serverNonce.value, a, offset, 32);
      if !ok {
        return;
      }
      assert a[..] == a[..offset + 32];
      assert iterationCountBytes[..2] == iterationCountBytes;
      authAssistMap := authAssistMap[deviceID := a[..]];
    }

    /** The copies of generateAuthResponseMessage; they cannot throw once appendAuthInfo has succeeded. */
    method ResponseBody(m: AuthenticationMessage) returns (r: Octets)
      requires AuthInfo(m.View()).Returned?
      ensures r == ChallengeOf(m.View())
    {
      hide BigEndianShort, Narrow;
      r := FixedLayout(m.deviceID.value[..m.deviceIDLength], m.salt.value, m.iterationCount, m.serverNonce.value);
    }

    method FixedLayout(id: Octets, salt: Octets, iterationCount: int, nonce: Octets) returns (r: Octets)
      requires |salt| >= 32 && |nonce| >= 32
      ensures r == ChallengeBody(id, salt[..32], iterationCount, nonce[..32])
    {
      hide BigEndianShort, Narrow;
      var a := new bv8[69 + |id|](i => 0);
      CopyNameAndSalt(a, id, salt);
      var offset := 33 + |id|;
      var count := BigEndianShort(iterationCount);
      var ok := ArrayCopy(count, a, offset, 2);
      offset := offset + 2;
      assert count[..2] == count;
      ghost var before := a[..offset];
      assert a[..offset + 2] == before + [0, 0];
      offset := offset + 2;
      ok := ArrayCopy(nonce, a, offset, 32);
      assert a[..] == a[..offset + 32];
      r := a[..];
    }

    method CopyNameAndSalt(a: array<bv8>, id: Octets, salt: Octets)
      requires a.Length == 69 + |id| && |salt| >= 32
      modifies a
      ensures a[..33 + |id|] == [Narrow(|id|)] + id + salt[..32]
      ensures forall k :: 33 + |id| <= k < a.Length ==> a[k] == old(a[k])
    {
      hide Narrow;
      var n := |id|;
      a[0] := Narrow(n);
      var ok := ArrayCopy(id, a, 1, n);
      assert a[..1 + n] == [Narrow(n)] + id;
      ok := ArrayCopy(salt, a, 1 + n, 32);
    }

    method GenerateServerProofMessage(messageObject: MessageObject, m: AuthenticationMessage)
      returns (r: Outcome<Option<Session>>)
      modifies this`authAssistMap, messageObject, m
      ensures
        var s := ProofStep(algorithm, security, db, old(authAssistMap), old(m.View()));
        && authAssistMap == s.pending && Reports(r, messageObject, s.reply)
      ensures r.Thrown? ==> unchanged(messageObject)
    {
      hide Wrap, StatusFrame, Hex, Unhex, Check, ProofBody;
      if m.status != SUCCESS {
        m.messageType := SERVER_PROOF;
        messageObject.message := WrapMessageStatus(m.messageType, m.requestID, m.status);
        return Returned(None);
      }
      if m.deviceID.None? {
        return Thrown;
      }
      var deviceID := Hex(m.deviceID.value);
      var check := CheckClientAuthentication(m.clientProof, deviceID);
      if check.Thrown? {
        return Thrown;
      }
      if check.value.Some? {
        var sessionInfo := check.value.value;
        if !(0 <= m.deviceIDLength <= |m.deviceID.value|) {
          return Thrown;
        }
        var body := ServerProofBody(m.deviceID.value, m.deviceIDLength, sessionInfo.sessionKey);
        m.messageType := SERVER_PROOF;
        var response := WrapAuthMessage(security, db, m, body);
        if response.Thrown? {
          return Thrown;
        }
        messageObject.messageType := SERVER_PROOF;
        messageObject.sessionId := Some(Unhex(sessionInfo.sessionId));
        messageObject.message := response.value;
      } else {
        m.status := FAILURE;
        m.messageType := SERVER_PROOF;
        messageObject.message := WrapMessageStatus(m.messageType, m.requestID, m.status);
      }
      authAssistMap := authAssistMap - {deviceID};
      r := check;
    }

    method ServerProofBody(deviceID: Octets, n: nat, proof: Octets) returns (r: Octets)
      requires n <= |deviceID|
      ensures r == ProofBody(deviceID[..n], proof)
    {
      hide Narrow;
      var a := new bv8[1 + n + |proof|](i => 0);
      a[0] := Narrow(n);
      var ok := ArrayCopy(deviceID, a, 1, n);
      ok := ArrayCopy(proof, a, 1 + n, |proof|);
      assert proof[..|proof|] == proof && a[..] == a[..1 + n + |proof|];
      r := a[..];
    }

    method CheckClientAuthentication(clientProof: Option<Octets>,
                                     deviceID: string) returns (r: Outcome<Option<Session>>)
      ensures r == Check(algorithm, db, authAssistMap, clientProof, deviceID)
    {
      hide Crypted, GetXor, SessionOf, Mac;
      if deviceID !in authAssistMap {
        return Returned(None);
      }
      var authInfo := authAssistMap[deviceID];
      if deviceID !in db.passwords {
        return Returned(None);
      }
      var password := DecryptedColumn(db.passwords[deviceID]);
      var hmac := Mac(algorithm, password, authInfo);
      if clientProof.None? {
        return Thrown;
      }
      var proof := clientProof.value;
      if hmac.None? {
        return if proof == [] then Returned(None) else Thrown;
      }
      var calculateKey := GetXor(proof, hmac.value, |proof|);
      if calculateKey.Thrown? {
        return Thrown;
      }
      var calculatePassword := algorithm.sha256(calculateKey.value);
      if calculatePassword == password {
        var sessionInfo := SessionOf(algorithm, calculateKey.value, authInfo, deviceID);
        r := if sessionInfo.Thrown? then Thrown else Returned(Some(sessionInfo.value));
      } else {
        r := Returned(None);
      }
    }
  }
}
