/** LocalAuthProcessor of the client: the request, the proof, and the check of the server's proof. */
module ClientProcessor {
  import opened Bytes
  import opened JavaBytes
  import opened BlockModes
  import opened Messages
  import opened Algorithms
  import opened ClientPackets

  /** AccessAuthInfo; None is null. */
  datatype AccessInfo = AccessInfo(
    deviceID: Option<Octets>, quantumKey: Option<Octets>, encryptionAlgorithm: int,
    rootKeyId: Option<Octets>, rootKeyValue: Option<Octets>)

  datatype ClientSession = ClientSession(username: Octets, sessionID: Octets, sessionKey: Octets)

  /** The fields of an AuthAssistInfo; `latch` is the count of its CountDownLatch. */
  datatype Assist = Assist(
    deviceId: string, clientNonce: Octets, quantumKey: Octets, success: bool, session: Option<ClientSession>,
      latch: nat)

  type Assists = map<string, Assist>

  // ----- what the methods compute

  /** The argument checks of generateStartAuthRequest. */
  predicate StartAllowed(info: AccessInfo) {
    && info.deviceID.Some? && 5 <= |info.deviceID.value| <= 25
    && info.quantumKey.Some? && 6 <= |info.quantumKey.value| <= 128
    && (info.encryptionAlgorithm == ENCRYPTION_ALGORITHM_AES ==>
          && info.rootKeyId.Some? && |info.rootKeyId.value| == 16
          && info.rootKeyValue.Some? && |info.rootKeyValue.value| == 32)
  }

  function StartMessage(info: AccessInfo, nonce: Octets): Message
    requires StartAllowed(info)
  {
    var m := Blank().(
      clientNonce := Some(nonce), version := 1, encryptionAlgorithm := info.encryptionAlgorithm,
      deviceIDLength := |info.deviceID.value|, deviceID := info.deviceID, requestID := 120, status := SUCCESS,
      messageType := ACCESS_AUTH_REQ);
    if info.encryptionAlgorithm == ENCRYPTION_ALGORITHM_AES
    then m.(encryptionKeyID := info.rootKeyId, rootKeyValue := info.rootKeyValue)
    else m
  }

  /** reset */
  function Restarted(pending: Assists, info: AccessInfo, nonce: Octets): Assists
    requires StartAllowed(info)
  {
    var d := Hex(info.deviceID.value);
    pending[d := Assist(d, nonce, info.quantumKey.value, false, None, 1)]
  }

  /** appendAuthInfo */
  function AuthInfo(id: Octets, clientNonce: Octets, salt: Octets, iterationCount: int,
                    serverNonce: Octets): Outcome<Octets> {
    if |clientNonce| < 32 || |salt| < 32 || |serverNonce| < 32 then Thrown
    else Returned(id + clientNonce[..32] + salt[..32] + ToLe(iterationCount, 2) + serverNonce[..32])
  }

  function ProofOf(p: Primitives, key: Bytes32, info: Octets): Bytes32 {
    XorBytes(key, p.hmac(p.sha256(key), info))
  }

  /** generateSessionInfo */
  function SessionFor(p: Primitives, id: Octets, key: Bytes32, clientNonce: Octets, serverNonce: Octets, info: Octets)
    : (s: ClientSession)
    requires |clientNonce| >= 32 && |serverNonce| >= 32
    ensures s.username == id && |s.sessionID| == 16 && |s.sessionKey| == 32
  {
    ClientSession(id, XorBytes(clientNonce[..32], serverNonce[..32])[..16], p.hmac(key, info))
  }

  datatype Proven = Proven(assist: Assist, message: Message)

  /** calculateClientProof: the message and the stored entry, both updated. The PBKDF2 of the library refuses a
      count of 0. */
  function Prove(p: Primitives, a: Assist, m: Message): Outcome<Proven> {
    if m.deviceID.None? || m.salt.None? || m.serverNonce.None? || m.iterationCount == 0 then Thrown
    else
      var id, salt, serverNonce := m.deviceID.value, m.salt.value, m.serverNonce.value;
      var key := p.pbkdf2(a.quantumKey, salt, m.iterationCount);
      match AuthInfo(id, a.clientNonce, salt, m.iterationCount, serverNonce)
      case Thrown => Thrown
      case Returned(info) =>
        Returned(Proven(a.(session := Some(SessionFor(p, id, key, a.clientNonce, serverNonce, info))),
                        m.(clientProof := Some(ProofOf(p, key, info)), messageType := CLIENT_PROOF, status := SUCCESS)))
  }

  /** What processAuthencaition gives back: nothing, a message to send (or null), or the result of the check. */
  datatype Answer = Nothing | Send(message: Option<Octets>) | Checked(session: Option<Session>)

  datatype Stepped = Stepped(answer: Outcome<Answer>, pending: Assists)

  function ProofStep(p: Primitives, c: Cipher, roots: map<string, Octets>, pending: Assists, m: Message): Stepped
    requires m.deviceID.Some?
  {
    var d := Hex(m.deviceID.value);
    if d !in pending then Stepped(Thrown, pending)
    else
      match Prove(p, pending[d], m)
      case Thrown => Stepped(Thrown, pending)
      case Returned(proven) =>
        Stepped(match Wrap(c, roots, proven.message) case Thrown => Thrown case Returned(f) => Returned(Send(f)),
                pending[d := proven.assist])
  }

  function Verified(a: Assist): Assist { a.(success := true, latch := if a.latch > 0 then a.latch - 1 else 0) }

  /** checkServerProof */
  function CheckStep(pending: Assists, id: Octets, serverProof: Octets): Stepped {
    var d := Hex(id);
    if d !in pending || pending[d].session.None? then Stepped(Thrown, pending)
    else
      var s := pending[d].session.value;
      if serverProof == s.sessionKey
      then Stepped(Returned(Checked(Some(Session(d, Hex(s.sessionID), s.sessionKey)))),
                   pending[d := Verified(pending[d])])
      else Stepped(Returned(Checked(None)), pending)
  }

  /** processAuthencaition, on the bytes of one message. */
  function Step(p: Primitives, c: Cipher, roots: map<string, Octets>, pending: Assists, f: Octets): Stepped {
    match Unwrap(c, roots, f)
    case Thrown => Stepped(Thrown, pending)
    case Returned(None) => Stepped(Returned(Nothing), pending)
    case Returned(Some(m)) =>
      if m.deviceID.None? then Stepped(Thrown, pending)
      else if m.messageType == ACCESS_AUTH_RESP then ProofStep(p, c, roots, pending, m)
      else if m.messageType == SERVER_PROOF && m.serverProof.Some?
      then CheckStep(pending, m.deviceID.value, m.serverProof.value)
      else Stepped(Thrown, pending)
  }

  /** getSessionInfo, once its wait is over: the session of a verified run, and the entry removed. */
  function Collected(pending: Assists, id: Octets): (Outcome<Option<ClientSession>>, Assists) {
    var d := Hex(id);
    if d !in pending then (Thrown, pending)
    else (Returned(if pending[d].success then pending[d].session else None), pending - {d})
  }

  // ----- the program

  class AuthAssistInfo {
    const deviceId: string
    const clientNonce: Octets
    const quantumKey: Octets
    var success: bool
    var session: Option<ClientSession>
    var latch: nat

    constructor (deviceId: string, clientNonce: Octets, quantumKey: Octets)
      ensures View() == Assist(deviceId, clientNonce, quantumKey, false, None, 1)
    {
      this.deviceId, this.clientNonce, this.quantumKey := deviceId, clientNonce, quantumKey;
      success, session, latch := false, None, 1;
    }

    ghost function View(): Assist
      reads this
    {
      Assist(deviceId, clientNonce, quantumKey, success, session, latch)
    }
  }

  class LocalAuthProcessor {
    const algorithm: Primitives
    const security: Cipher
    const packets: PacketUtil
    var assistInfoMap: map<string, AuthAssistInfo>

    constructor (algorithm: Primitives, security: Cipher, packets: PacketUtil)
      ensures Valid() && Pending() == map[]
      ensures this.algorithm == algorithm && this.security == security && this.packets == packets
    {
      this.algorithm, this.security, this.packets, assistInfoMap := algorithm, security, packets, map[];
    }

    /** No object is stored under two names. */
    ghost predicate Valid()
      reads this
    {
      forall d, e :: d in assistInfoMap && e in assistInfoMap && d != e ==> assistInfoMap[d] != assistInfoMap[e]
    }

    ghost function Pending(): Assists
      reads this, assistInfoMap.Values
    {
      map d | d in assistInfoMap :: assistInfoMap[d].View()
    }

    method GenerateStartAuthRequest(info: AccessInfo, nonce: Bytes32) returns (r: Outcome<Option<Octets>>)
      requires Valid()
      modifies this, packets
      ensures Valid()
      ensures r == if StartAllowed(info) then Wrap(security, old(packets.rootKeys), StartMessage(info, nonce))
              else Thrown
      ensures Pending() == if StartAllowed(info) then Restarted(old(Pending()), info, nonce) else old(Pending())
      ensures packets.rootKeys == if StartAllowed(info)
                                  then RootsAfter(old(packets.rootKeys), StartMessage(info, nonce))
                                  else old(packets.rootKeys)
    {
      hide Wrap, RootsAfter, Hex;
      if !Checked(info) {
        return Thrown;
      }
      Reset(info, nonce);
      var m := NewStartMessage(info, nonce);
      r := packets.WrapAuthMessage(security, m);
    }

    /** The checks, in the order of the program. */
    static predicate Checked(info: AccessInfo)
      ensures Checked(info) == StartAllowed(info)
    {
      if info.deviceID.None? then false
      else if |info.deviceID.value| < 5 || |info.deviceID.value| > 25 then false
      else if info.quantumKey.None? then false
      else if |info.quantumKey.value| < 6 || |info.quantumKey.value| > 128 then false
      else if info.encryptionAlgorithm == ENCRYPTION_ALGORITHM_AES then
        if info.rootKeyId.None? then false
        else if |info.rootKeyId.value| != 16 then false
        else if info.rootKeyValue.None? then false
        else |info.rootKeyValue.value| == 32
      else true
    }

    method NewStartMessage(info: AccessInfo, nonce: Bytes32) returns (m: AuthenticationMessage)
      requires StartAllowed(info)
      ensures fresh(m) && m.View() == StartMessage(info, nonce)
    {
      hide AuthenticationMessage.View;
      m := new AuthenticationMessage();
      if info.encryptionAlgorithm == ENCRYPTION_ALGORITHM_AES {
        m.SetKeys(info.rootKeyId, info.rootKeyValue);
      }
      m.SetClientNonce(nonce);
      m.SetMode(1, info.encryptionAlgorithm);
      m.SetName(|info.deviceID.value|, info.deviceID);
      m.SetRequest(120, 0);
      m.Mark(ACCESS_AUTH_REQ, SUCCESS);
    }

    method Reset(info: AccessInfo, nonce: Bytes32)
      requires Valid() && StartAllowed(info)
      modifies this
      ensures Valid() && Pending() == Restarted(old(Pending()), info, nonce)
    {
      hide Hex;
      var d := Hex(info.deviceID.value);
      var assistInfo := new AuthAssistInfo(d, nonce, info.quantumKey.value);
      assistInfoMap := assistInfoMap[d := assistInfo];
    }

    method ProcessAuthencaition(message: Octets) returns (r: Outcome<Answer>)
      requires Valid()
      modifies this, assistInfoMap.Values, packets
      ensures Valid()
      ensures Stepped(r, Pending()) == Step(algorithm, security, old(packets.rootKeys), old(Pending()), message)
      ensures packets.rootKeys == old(packets.rootKeys)
    {
      hide Unwrap, ProofStep, CheckStep, AuthenticationMessage.View, Hex;
      var received := packets.UnwrapBinaryToAuthMessage(security, message);
      if received.Thrown? {
        return Thrown;
      }
      if received.value == null {
        return Returned(Nothing);
      }
      var m := received.value;
      if m.deviceID.None? {
        return Thrown;
      }
      if m.messageType == ACCESS_AUTH_RESP {
        r := SendProof(m);
      } else if m.messageType == SERVER_PROOF && m.serverProof.Some? {
        r := CheckServerProof(m.deviceID.value, m.serverProof.value);
      } else {
        r := Thrown;
      }
    }

    /** calculateClientProof, then wrapAuthMessage. */
    method SendProof(m: AuthenticationMessage) returns (r: Outcome<Answer>)
      requires Valid() && m.deviceID.Some? && m.messageType == ACCESS_AUTH_RESP
      modifies m, assistInfoMap.Values, packets
      ensures Valid() && packets.rootKeys == old(packets.rootKeys)
      ensures Stepped(r, Pending()) == ProofStep(algorithm, security, old(packets.rootKeys), old(Pending()),
              old(m.View()))
    {
      hide Hex, Wrap, Prove, AuthenticationMessage.View;
      var d := Hex(m.deviceID.value);
      if d !in assistInfoMap {
        return Thrown;
      }
      var ok := CalculateClientProof(m, assistInfoMap[d]);
      PendingUpdate(d, old(Pending()), assistInfoMap[d].View());
      if !ok {
        return Thrown;
      }
      var f := packets.WrapAuthMessage(security, m);
      r := if f.Thrown? then Thrown else Returned(Send(f.value));
    }

    /** When one entry's object has changed, so has that entry of the view, and no other. */
    lemma PendingUpdate(d: string, before: Assists, a: Assist)
      requires d in assistInfoMap && before.Keys == assistInfoMap.Keys && a == assistInfoMap[d].View()
      requires forall e :: e in assistInfoMap && e != d ==> before[e] == assistInfoMap[e].View()
      ensures Pending() == before[d := a]
    {}

    method CalculateClientProof(m: AuthenticationMessage, assistInfo: AuthAssistInfo) returns (ok: bool)
      modifies m, assistInfo
      ensures ok == Prove(algorithm, old(assistInfo.View()), old(m.View())).Returned?
      ensures ok ==>
                Prove(algorithm, old(assistInfo.View()), old(m.View())) == Returned(Proven(assistInfo.View(), m.View()))
      ensures !ok ==> assistInfo.View() == old(assistInfo.View())
      ensures ok ==> m.messageType == CLIENT_PROOF
    {
      hide ProofOf, SessionFor, ToLe;
      if m.deviceID.None? || m.salt.None? || m.serverNonce.None? || m.iterationCount == 0 {
        return false;
      }
      var salt, iterationCount, deviceID, serverNonce := m.salt.value, m.iterationCount, m.deviceID.value,
        m.serverNonce.value;
      var clientNonce := assistInfo.clientNonce;
      var key := algorithm.pbkdf2(assistInfo.quantumKey, salt, iterationCount);
      var authInfo := AppendAuthInfo(deviceID, clientNonce, salt, iterationCount, serverNonce);
      if authInfo.Thrown? {
        return false;
      }
      var clientProof := ProofOf(algorithm, key, authInfo.value);
      assistInfo.session := Some(SessionFor(algorithm, deviceID, key, clientNonce, serverNonce, authInfo.value));
      m.clientProof := Some(clientProof);
      m.Mark(CLIENT_PROOF, SUCCESS);
      ok := true;
    }

    /** appendAuthInfo: five copies at a moving offset. */
    method AppendAuthInfo(deviceID: Octets, clientNonce: Octets, salt: Octets, iterationCount: int, serverNonce: Octets)
      returns (r: Outcome<Octets>)
      ensures r == AuthInfo(deviceID, clientNonce, salt, iterationCount, serverNonce)
    {
      hide ToLe;
      var n := |deviceID|;
      var authInfo := new bv8[n + 98](i => 0);
      var ok := ArrayCopy(deviceID, authInfo, 0, n);
      assert authInfo[..n] == deviceID;
      ok := ArrayCopy(clientNonce, authInfo, n, 32);
      if !ok {
        return Thrown;
      }
      ok := ArrayCopy(salt, authInfo, n + 32, 32);
      if !ok {
        return Thrown;
      }
      var count := ToLe(iterationCount, 2);
      ok := ArrayCopy(count, authInfo, n + 64, 2);
      assert count[..2] == count;
      ok := ArrayCopy(serverNonce, authInfo, n + 66, 32);
      if !ok {
        return Thrown;
      }
      assert authInfo[..] == authInfo[..n + 98];
      r := Returned(authInfo[..]);
    }

    method CheckServerProof(deviceID: Octets, receivedServerProof: Octets) returns (r: Outcome<Answer>)
      requires Valid()
      modifies assistInfoMap.Values
      ensures Valid()
      ensures Stepped(r, Pending()) == CheckStep(old(Pending()), deviceID, receivedServerProof)
    {
      hide Hex;
      var d := Hex(deviceID);
      if d !in assistInfoMap {
        return Thrown;
      }
      var assistInfo := assistInfoMap[d];
      if assistInfo.session.None? {
        return Thrown;
      }
      var s := assistInfo.session.value;
      if receivedServerProof == s.sessionKey {
        assistInfo.success := true;
        if assistInfo.latch > 0 {
          assistInfo.latch := assistInfo.latch - 1;
        }
        PendingUpdate(d, old(Pending()), assistInfo.View());
        r := Returned(Answer.Checked(Some(Session(d, Hex(s.sessionID), s.sessionKey))));
      } else {
        r := Returned(Answer.Checked(None));
      }
    }

    /** getSessionInfo, without the wait on the latch. */
    method GetSessionInfo(deviceID: Octets) returns (r: Outcome<Option<ClientSession>>)
      requires Valid()
      modifies this
      ensures Valid() && (r, Pending()) == Collected(old(Pending()), deviceID)
    {
      hide Hex;
      var d := Hex(deviceID);
      if d !in assistInfoMap {
        return Thrown;
      }
      var assistInfo := assistInfoMap[d];
      assistInfoMap := assistInfoMap - {d};
      assert Pending() == old(Pending()) - {d};
      r := Returned(if assistInfo.success then assistInfo.session else None);
    }
  }
}
