/** Both processors together: what acceptance implies, and that the handshake succeeds. */
module Handshake {
  import opened Bytes
  import opened GF256
  import opened BlockModes
  import opened JavaBytes
  import opened PassCryp
  import opened Messages
  import opened Algorithms
  import opened Frames
  import CP = ClientPackets
  import SP = ServerPackets
  import Client = ClientProcessor
  import Server = ServerProcessor

  // ----- the authentication info

  /** The layout both sides build: everything behind the name has a fixed length. */
  function Info(id: Octets, clientNonce: Octets, salt: Octets, count: Octets, serverNonce: Octets): Octets {
    id + clientNonce + salt + count + serverNonce
  }

  lemma InfoParts(id: Octets, clientNonce: Octets, salt: Octets, count: Octets, serverNonce: Octets)
    requires |clientNonce| == |salt| == |serverNonce| == 32 && |count| == 2
    ensures
      var info, n := Info(id, clientNonce, salt, count, serverNonce), |id|;
      && |info| == n + 98 && info[..n] == id && info[n..n + 32] == clientNonce && info[n + 32..n + 64] == salt
      && info[n + 64..n + 66] == count && info[n + 66..] == serverNonce
  {}

  lemma InfoInjective(id0: Octets, cn0: Octets, salt0: Octets, count0: Octets, sn0: Octets,
                      id1: Octets, cn1: Octets, salt1: Octets, count1: Octets, sn1: Octets)
    requires |cn0| == |salt0| == |sn0| == 32 && |count0| == 2
    requires |cn1| == |salt1| == |sn1| == 32 && |count1| == 2
    requires Info(id0, cn0, salt0, count0, sn0) == Info(id1, cn1, salt1, count1, sn1)
    ensures id0 == id1 && cn0 == cn1 && salt0 == salt1 && count0 == count1 && sn0 == sn1
  {
    hide Info;
    InfoParts(id0, cn0, salt0, count0, sn0);
    InfoParts(id1, cn1, salt1, count1, sn1);
  }

  lemma CountInjective(i: int, j: int)
    requires ToLe(i, 2) == ToLe(j, 2)
    ensures i % 65536 == j % 65536
  {
    LowBytes(i);
    LowBytes(j);
    NarrowValue(i);
    NarrowValue(j);
    NarrowValue(i / 256);
    NarrowValue(j / 256);
    hide Narrow, ToLe;
    assert ToLe(i, 2)[0] == ToLe(j, 2)[0] && ToLe(i, 2)[1] == ToLe(j, 2)[1];
    TwoDigits(i);
    TwoDigits(j);
  }

  lemma LowBytes(i: int)
    ensures ToLe(i, 2) == [Narrow(i), Narrow(i / 256)]
  {
    hide Narrow;
    assert ToLe(i / 256, 1) == [Narrow(i / 256)];
  }

  lemma TwoDigits(i: int)
    ensures i % 65536 == 256 * (i / 256 % 256) + i % 256
  {
    ModDigits(i, 256);
  }

  // ----- agreement

  /** What the client computed in calculateClientProof. */
  function ClientKey(p: Primitives, a: Client.Assist, m: Message): Bytes32
    requires m.salt.Some?
  {
    p.pbkdf2(a.quantumKey, m.salt.value, m.iterationCount)
  }

  /** SHA-256 and HMAC do not collide on the values at hand. */
  ghost predicate NoCollision(p: Primitives, key: Octets, other: Octets, info: Octets, otherInfo: Octets) {
    && (p.sha256(other) == p.sha256(key) ==> other == key)
    && (p.hmac(p.sha256(key), otherInfo) == p.hmac(p.sha256(key), info) ==> otherInfo == info)
  }

  /** The key the server recovers from a proof. */
  function Recovered(p: Primitives, password: Octets, info: Octets, proof: Bytes32): Octets {
    XorBytes(proof, p.hmac(password, info))
  }

  /** The server holds `info` for `d`, and accepts the proof of a client that used the enrolled key. */
  ghost predicate Accepts(p: Primitives, db: SP.Database, pending: map<string, Octets>, d: string, info: Octets,
                          a: Client.Assist, m: Message, s: Session)
    requires Client.Prove(p, a, m).Returned?
  {
    ProveParts(p, a, m);
    var key := ClientKey(p, a, m);
    var proof := Client.ProofOf(p, key, ClientInfo(a, m));
    && d in pending && pending[d] == info
    && d in db.passwords && Crypted(db.passwords[d]) == p.sha256(key)
    && Server.Check(p, db, pending, Client.Prove(p, a, m).value.message.clientProof, d) == Returned(Some(s))
    && NoCollision(p, key, Recovered(p, p.sha256(key), info, proof), ClientInfo(a, m), info)
  }

  /** If the server, holding the challenge of `sent`, accepts the proof of a client that uses the enrolled
      key, then both used the same name, nonces, salt and 16-bit count, and they hold the same session. */
  lemma Agreement(p: Primitives, db: SP.Database, pending: map<string, Octets>, sent: Message, a: Client.Assist,
                  m: Message,
                  s: Session)
    requires Server.AuthInfo(sent).Returned? && sent.deviceIDLength == |sent.deviceID.value| && sent.iterationCount >= 0
    requires Client.Prove(p, a, m).Returned?
    requires Accepts(p, db, pending, Hex(sent.deviceID.value), Server.AuthInfo(sent).value, a, m, s)
    ensures m.deviceID.Some? && m.salt.Some? && m.serverNonce.Some?
    ensures |a.clientNonce| >= 32 && |m.salt.value| >= 32 && |m.serverNonce.value| >= 32
    ensures
      && m.deviceID == sent.deviceID
      && a.clientNonce[..32] == sent.clientNonce.value[..32]
      && m.salt.value[..32] == sent.salt.value[..32]
      && m.iterationCount % 65536 == sent.iterationCount % 65536
      && m.serverNonce.value[..32] == sent.serverNonce.value[..32]
    ensures ClientInfo(a, m) == Server.AuthInfo(sent).value
    ensures
      var mine := Client.Prove(p, a, m).value.assist.session.value;
      s == Session(Hex(mine.username), Hex(mine.sessionID), mine.sessionKey)
  {
    hide Hex, Crypted, Client.Prove, Client.ProofOf, Server.AuthInfo, Server.CheckProof, ClientInfo, Recovered,
      NoCollision;
    ProveParts(p, a, m);
    ServerInfo(sent);
    var d, info, key := Hex(sent.deviceID.value), Server.AuthInfo(sent).value, ClientKey(p, a, m);
    var proof := Client.ProofOf(p, key, ClientInfo(a, m));
    assert Server.CheckProof(p, p.sha256(key), info, proof, d) == Returned(Some(s));
    AgreementOnParts(p, sent, a, m, s);
  }

  lemma AgreementOnParts(p: Primitives, sent: Message, a: Client.Assist, m: Message, s: Session)
    requires Server.AuthInfo(sent).Returned? && sent.deviceIDLength == |sent.deviceID.value| && sent.iterationCount >= 0
    requires m.deviceID.Some? && m.salt.Some? && m.serverNonce.Some?
    requires |a.clientNonce| >= 32 && |m.salt.value| >= 32 && |m.serverNonce.value| >= 32
    requires
      var info, key := Server.AuthInfo(sent).value, ClientKey(p, a, m);
      var proof := Client.ProofOf(p, key, ClientInfo(a, m));
      && Server.CheckProof(p, p.sha256(key), info, proof, Hex(sent.deviceID.value)) == Returned(Some(s))
      && NoCollision(p, key, Recovered(p, p.sha256(key), info, proof), ClientInfo(a, m), info)
    ensures
      && m.deviceID == sent.deviceID
      && a.clientNonce[..32] == sent.clientNonce.value[..32]
      && m.salt.value[..32] == sent.salt.value[..32]
      && m.iterationCount % 65536 == sent.iterationCount % 65536
      && m.serverNonce.value[..32] == sent.serverNonce.value[..32]
    ensures ClientInfo(a, m) == Server.AuthInfo(sent).value
    ensures
      var mine := Client.SessionFor(p, m.deviceID.value, ClientKey(p, a, m), a.clientNonce, m.serverNonce.value,
                                    ClientInfo(a, m));
      s == Session(Hex(mine.username), Hex(mine.sessionID), mine.sessionKey)
  {
    hide Hex, Client.ProofOf, Server.AuthInfo, Server.CheckProof, Server.SessionOf, Client.SessionFor, Recovered,
      NoCollision, Info;
    ServerInfo(sent);
    var info, key := Server.AuthInfo(sent).value, ClientKey(p, a, m);
    ServerAccepted(p, p.sha256(key), info, Client.ProofOf(p, key, ClientInfo(a, m)), Hex(sent.deviceID.value), s);
    SameInfo(p, key, ClientInfo(a, m), info);
    SameParts(sent, a, m);
    SameSession(p, m.deviceID.value, key, a.clientNonce, m.salt.value, m.iterationCount, m.serverNonce.value);
  }

  lemma ProveParts(p: Primitives, a: Client.Assist, m: Message)
    requires Client.Prove(p, a, m).Returned?
    ensures m.deviceID.Some? && m.salt.Some? && m.serverNonce.Some?
    ensures |a.clientNonce| >= 32 && |m.salt.value| >= 32 && |m.serverNonce.value| >= 32
    ensures
      var proven, key := Client.Prove(p, a, m).value, ClientKey(p, a, m);
      && proven.message.clientProof == Some(Client.ProofOf(p, key, ClientInfo(a, m)))
      && proven.assist.session ==
         Some(Client.SessionFor(p, m.deviceID.value, key, a.clientNonce, m.serverNonce.value, ClientInfo(a, m)))
  {
    hide ToLe, Client.ProofOf, Client.SessionFor;
  }

  /** The info a client proves for. */
  function ClientInfo(a: Client.Assist, m: Message): Octets
    requires m.deviceID.Some? && m.salt.Some? && m.serverNonce.Some?
    requires |a.clientNonce| >= 32 && |m.salt.value| >= 32 && |m.serverNonce.value| >= 32
  {
    Info(m.deviceID.value, a.clientNonce[..32], m.salt.value[..32], ToLe(m.iterationCount, 2),
         m.serverNonce.value[..32])
  }

  /** Acceptance means that the recovered key has the stored hash. */
  lemma ServerAccepted(p: Primitives, password: Bytes32, info: Octets, proof: Bytes32, d: string, s: Session)
    requires Server.CheckProof(p, password, info, proof, d) == Returned(Some(s))
    ensures p.sha256(Recovered(p, password, info, proof)) == password
    ensures Server.SessionOf(p, Recovered(p, password, info, proof), info, d) == Returned(s)
  {
    hide Server.SessionOf, XorBytes;
    var h := p.hmac(password, info);
    assert proof[..32] == proof && h[..32] == h;
  }

  /** A key recovered correctly means that both sides mixed in the same HMAC. */
  lemma SameInfo(p: Primitives, key: Bytes32, mine: Octets, info: Octets)
    requires
      var other := Recovered(p, p.sha256(key), info, Client.ProofOf(p, key, mine));
      p.sha256(other) == p.sha256(key) && NoCollision(p, key, other, mine, info)
    ensures mine == info
    ensures Recovered(p, p.sha256(key), info, Client.ProofOf(p, key, mine)) == key
  {
    hide XorBytes;
    XorBytesCancelLeft(key, p.hmac(p.sha256(key), mine), p.hmac(p.sha256(key), info));
  }

  lemma XorBytesCancelLeft(k: Bytes32, x: Bytes32, y: Bytes32)
    requires XorBytes(XorBytes(k, x), y) == k
    ensures x == y
  {
    hide Xor;
    forall i | 0 <= i < 32 ensures x[i] == y[i] {
      assert XorBytes(XorBytes(k, x), y)[i] == Xor(Xor(k[i], x[i]), y[i]) == k[i];
      XorCancelLeft(k[i], x[i], y[i]);
    }
  }

  lemma XorCancelLeft(k: bv8, x: bv8, y: bv8)
    requires Xor(Xor(k, x), y) == k
    ensures x == y
  {
    hide Xor;
    XorAssoc(k, x, y);
    XorCancel(Xor(x, y), k);
    XorSelf(k);
    XorAssoc(Xor(x, y), k, k);
    XorCancel(x, y);
    XorSelf(y);
  }

  lemma SameParts(sent: Message, a: Client.Assist, m: Message)
    requires Server.AuthInfo(sent).Returned? && sent.deviceIDLength == |sent.deviceID.value| && sent.iterationCount >= 0
    requires m.deviceID.Some? && m.salt.Some? && m.serverNonce.Some?
    requires |a.clientNonce| >= 32 && |m.salt.value| >= 32 && |m.serverNonce.value| >= 32
    requires ClientInfo(a, m) == Server.AuthInfo(sent).value
    ensures m.deviceID == sent.deviceID && a.clientNonce[..32] == sent.clientNonce.value[..32]
    ensures m.salt.value[..32] == sent.salt.value[..32] && m.serverNonce.value[..32] == sent.serverNonce.value[..32]
    ensures m.iterationCount % 65536 == sent.iterationCount % 65536
  {
    hide LittleEndianShort, ToLe;
    ServerInfo(sent);
    ShortsAgree(sent.iterationCount);
    hide Info, Server.AuthInfo;
    InfoInjective(m.deviceID.value, a.clientNonce[..32], m.salt.value[..32], ToLe(m.iterationCount, 2),
                  m.serverNonce.value[..32],
                  sent.deviceID.value, sent.clientNonce.value[..32], sent.salt.value[..32],
                  ToLe(sent.iterationCount, 2), sent.serverNonce.value[..32]);
    CountInjective(m.iterationCount, sent.iterationCount);
  }

  lemma ServerInfo(sent: Message)
    requires Server.AuthInfo(sent).Returned? && sent.deviceIDLength == |sent.deviceID.value|
    ensures sent.deviceID.Some? && sent.clientNonce.Some? && sent.salt.Some? && sent.serverNonce.Some?
    ensures |sent.clientNonce.value| >= 32 && |sent.salt.value| >= 32 && |sent.serverNonce.value| >= 32
    ensures Server.AuthInfo(sent).value ==
            Info(sent.deviceID.value, sent.clientNonce.value[..32], sent.salt.value[..32],
                 LittleEndianShort(sent.iterationCount), sent.serverNonce.value[..32])
  {
    hide LittleEndianShort;
    assert sent.deviceID.value[..sent.deviceIDLength] == sent.deviceID.value;
  }

  /** From one info and one key, both sides derive the same session. */
  lemma SameSession(p: Primitives, id: Octets, key: Bytes32, clientNonce: Octets, salt: Octets, iterationCount: int,
                    serverNonce: Octets)
    requires |clientNonce| >= 32 && |salt| >= 32 && |serverNonce| >= 32
    ensures
      var info := Info(id, clientNonce[..32], salt[..32], ToLe(iterationCount, 2), serverNonce[..32]);
      var mine := Client.SessionFor(p, id, key, clientNonce, serverNonce, info);
      Server.SessionOf(p, key, info, Hex(id)) == Returned(Session(Hex(mine.username), Hex(mine.sessionID),
                                                                  mine.sessionKey))
  {
    hide Hex, ToLe, Info;
    var info := Info(id, clientNonce[..32], salt[..32], ToLe(iterationCount, 2), serverNonce[..32]);
    InfoParts(id, clientNonce[..32], salt[..32], ToLe(iterationCount, 2), serverNonce[..32]);
    var n := |id|;
    assert Subarray(info, n, n + 32) == clientNonce[..32] && Subarray(info, |info| - 32, |info|) == serverNonce[..32];
    XorPrefix(clientNonce[..32], serverNonce[..32], 16);
  }

  lemma XorPrefix(a: Octets, b: Octets, n: nat)
    requires n <= |a| <= |b|
    ensures XorBytes(a[..n], b[..n]) == XorBytes(a, b)[..n]
  {
    hide Xor;
  }

  // ----- completeness

  /** The database row of a device: salt, password hash and root key, each under passCryp. */
  ghost predicate Enrolled(p: Primitives, c: Cipher, db: SP.Database, info: Client.AccessInfo, salt: Bytes32,
                           count: int)
    requires Client.StartAllowed(info)
  {
    var d := Hex(info.deviceID.value);
    && count >= 0
    && d in db.challenges && db.challenges[d] == SP.AuthRespInfo(Crypted(salt), count)
    && d in db.passwords && db.passwords[d] == Crypted(p.sha256(p.pbkdf2(info.quantumKey.value, salt, count)))
    && info.encryptionAlgorithm in {ENCRYPTION_ALGORITHM_DEFAULT, ENCRYPTION_ALGORITHM_AES}
    && (info.encryptionAlgorithm == ENCRYPTION_ALGORITHM_AES ==>
          && info.rootKeyId.value in db.rootKeys &&
            db.rootKeys[info.rootKeyId.value] == Crypted(info.rootKeyValue.value)
          && c.Serves(info.rootKeyValue.value))
  }

  /** How a run ends on each side. */
  datatype Run = Run(server: Option<Session>, client: Option<Session>, stored: map<string, Octets>,
                     assists: Client.Assists)

  /** The four messages of a handshake, each delivered once and in order. */
  function Deliver(p: Primitives, c: Cipher, db: SP.Database, info: Client.AccessInfo, roots: map<string, Octets>,
                   assists: Client.Assists, stored: map<string, Octets>, clientNonce: Bytes32, serverNonce: Bytes32,
                   unused: Bytes32): Option<Run>
    requires Client.StartAllowed(info)
  {
    match Deliver1(p, c, db, info, roots, assists, stored, clientNonce, serverNonce)
    case None => None
    case Some(half) => Deliver2(p, c, db, CP.RootsAfter(roots, Client.StartMessage(info, clientNonce)), half.assists,
                                half.stored, half.proof, unused)
  }

  /** What both sides hold when the client has sent its proof. */
  datatype Half = Half(proof: Octets, assists: Client.Assists, stored: map<string, Octets>)

  /** The first half: request, challenge, and the client's answer to it. */
  function Deliver1(p: Primitives, c: Cipher, db: SP.Database, info: Client.AccessInfo, roots: map<string, Octets>,
                    assists: Client.Assists, stored: map<string, Octets>, clientNonce: Bytes32,
                    serverNonce: Bytes32): Option<Half>
    requires Client.StartAllowed(info)
  {
    var start := Client.StartMessage(info, clientNonce);
    var request := CP.Wrap(c, roots, start);
    if request.Thrown? || request.value.None? then None
    else
      var s0 := Server.Step(p, c, db, stored, request.value.value, serverNonce);
      if s0.reply.Thrown? then None
      else
        var c0 := Client.Step(p, c, CP.RootsAfter(roots, start), Client.Restarted(assists, info, clientNonce),
                              s0.reply.value.message);
        match c0.answer
        case Returned(Send(Some(proof))) => Some(Half(proof, c0.pending, s0.pending))
        case _ => None
  }

  /** The second half, from the client's proof on. */
  function Deliver2(p: Primitives, c: Cipher, db: SP.Database, roots: map<string, Octets>, assists: Client.Assists,
                    stored: map<string, Octets>, proof: Octets, unused: Bytes32): Option<Run>
  {
    var s1 := Server.Step(p, c, db, stored, proof, unused);
    if s1.reply.Thrown? then None
    else
      var c1 := Client.Step(p, c, roots, assists, s1.reply.value.message);
      match c1.answer
      case Returned(Checked(session)) => Some(Run(s1.reply.value.session, session, s1.pending, c1.pending))
      case _ => None
  }

  function RunInfo(info: Client.AccessInfo, clientNonce: Bytes32, salt: Bytes32, count: int,
                   serverNonce: Bytes32): Octets
    requires Client.StartAllowed(info)
  {
    Info(info.deviceID.value, clientNonce, salt, ToLe(count, 2), serverNonce)
  }

  /** The key the client derives: the count reaches it in 16 bits. */
  function WireKey(p: Primitives, info: Client.AccessInfo, salt: Bytes32, count: int): Bytes32
    requires Client.StartAllowed(info)
  {
    p.pbkdf2(info.quantumKey.value, salt, count % 65536)
  }

  /** The key the device was enrolled with. */
  function EnrolledKey(p: Primitives, info: Client.AccessInfo, salt: Bytes32, count: int): Bytes32
    requires Client.StartAllowed(info)
  {
    p.pbkdf2(info.quantumKey.value, salt, count)
  }

  function RunSession(p: Primitives, info: Client.AccessInfo, clientNonce: Bytes32, salt: Bytes32, count: int,
                      serverNonce: Bytes32): (s: Client.ClientSession)
    requires Client.StartAllowed(info)
    ensures s.username == info.deviceID.value && |s.sessionKey| == 32
  {
    Client.SessionFor(p, info.deviceID.value, WireKey(p, info, salt, count), clientNonce, serverNonce,
                      RunInfo(info, clientNonce, salt, count, serverNonce))
  }

  /** The server answers the request of an enrolled device with its challenge. */
  lemma ChallengeSent(p: Primitives, c: Cipher, db: SP.Database, info: Client.AccessInfo, roots: map<string, Octets>,
                      stored: map<string, Octets>, salt: Bytes32, count: int, clientNonce: Bytes32,
                        serverNonce: Bytes32)
    returns (request: Octets, r: Message)
    requires Client.StartAllowed(info) && Enrolled(p, c, db, info, salt, count)
    ensures CP.Wrap(c, roots, Client.StartMessage(info, clientNonce)) == Returned(Some(request))
    ensures ChallengeFor(info, r)
    ensures
      var d, id := Hex(info.deviceID.value), info.deviceID.value;
      var s := Server.Step(p, c, db, stored, request, serverNonce);
      && s.pending == stored[d := RunInfo(info, clientNonce, salt, count, serverNonce)]
      && var w := SP.Wrap(c, db.rootKeys, r, ChallengeBody(id, salt, count, serverNonce));
      w.Returned? ==> s.reply.Returned? && s.reply.value.message == w.value
  {
    hide Hex, Crypted, CP.Wrap, SP.Wrap, Info, ChallengeBody, Server.AuthInfo, SharedRootKey, Sendable, RequestFits,
      Server.WithChallenge, Server.Step, Server.ChallengeOf, Received, ChallengeFor, RunInfo;
    var m := Client.StartMessage(info, clientNonce);
    StartShared(p, c, db, info, roots, salt, count, clientNonce);
    ServerReadsClient(c, roots, db.rootKeys, m);
    request := CP.Wrap(c, roots, m).value.value;
    r := Server.WithChallenge(Received(m), SP.AuthRespInfo(Crypted(salt), count), serverNonce);
    ChallengeInfo(info, salt, count, clientNonce, serverNonce);
    ReceivedStart(info, clientNonce);
    ServerChallenges(p, c, db, stored, request, Received(m), serverNonce);
  }

  lemma ReceivedStart(info: Client.AccessInfo, clientNonce: Bytes32)
    requires Client.StartAllowed(info)
    ensures
      var r := Received(Client.StartMessage(info, clientNonce));
      r.messageType == ACCESS_AUTH_REQ && r.status == SUCCESS && r.deviceID == info.deviceID
  {}

  /** The branch of the server that stores a challenge. */
  lemma ServerChallenges(p: Primitives, c: Cipher, db: SP.Database, stored: map<string, Octets>, f: Octets, m: Message,
                         nonce: Bytes32)
    requires SP.Unwrap(c, db.rootKeys, f) == Returned(m) && m.messageType == ACCESS_AUTH_REQ && m.status == SUCCESS
    requires m.deviceID.Some? && Hex(m.deviceID.value) in db.challenges
    requires Server.AuthInfo(Server.WithChallenge(m, db.challenges[Hex(m.deviceID.value)], nonce)).Returned?
    ensures
      var d := Hex(m.deviceID.value);
      var r := Server.WithChallenge(m, db.challenges[d], nonce);
      var s := Server.Step(p, c, db, stored, f, nonce);
      && s.pending == stored[d := Server.AuthInfo(r).value]
      && var w := SP.Wrap(c, db.rootKeys, r, Server.ChallengeOf(r));
      w.Returned? ==> s.reply.Returned? && s.reply.value.message == w.value
  {
    hide Hex, SP.Unwrap, SP.Wrap, Server.AuthInfo, Server.WithChallenge, Server.ChallengeOf;
  }

  /** The server's own message when it challenges. */
  predicate ChallengeFor(info: Client.AccessInfo, r: Message) {
    && Answerable(r) && r.messageType == ACCESS_AUTH_RESP && r.encryptionAlgorithm == info.encryptionAlgorithm
    && r.requestID == 120
    && (info.encryptionAlgorithm == ENCRYPTION_ALGORITHM_AES ==> r.encryptionKeyID == info.rootKeyId)
  }

  lemma StartShared(p: Primitives, c: Cipher, db: SP.Database, info: Client.AccessInfo, roots: map<string, Octets>,
                    salt: Bytes32, count: int, clientNonce: Bytes32)
    requires Client.StartAllowed(info) && Enrolled(p, c, db, info, salt, count)
    ensures
      var m := Client.StartMessage(info, clientNonce);
      && Sendable(m) && RequestFits(m) && SharedRootKey(c, roots, db.rootKeys, m)
  {
    hide Hex, Crypted, Narrow, CP.RootsAfter, CP.RootKey, Cipher.Serves;
    var m := Client.StartMessage(info, clientNonce);
    if info.encryptionAlgorithm == ENCRYPTION_ALGORITHM_AES {
      CryptedTwice(info.rootKeyValue.value);
      StartRegisters(info, roots, clientNonce);
    }
  }

  lemma StartRegisters(info: Client.AccessInfo, roots: map<string, Octets>, clientNonce: Bytes32)
    requires Client.StartAllowed(info) && info.encryptionAlgorithm == ENCRYPTION_ALGORITHM_AES
    ensures CP.RootKey(CP.RootsAfter(roots, Client.StartMessage(info, clientNonce)), info.rootKeyId) ==
            info.rootKeyValue
  {
    hide Hex, Narrow;
  }

  lemma ChallengeInfo(info: Client.AccessInfo, salt: Bytes32, count: int, clientNonce: Bytes32, serverNonce: Bytes32)
    requires Client.StartAllowed(info) && count >= 0
    requires info.encryptionAlgorithm in {ENCRYPTION_ALGORITHM_DEFAULT, ENCRYPTION_ALGORITHM_AES}
    ensures
      var m := Client.StartMessage(info, clientNonce);
      var r := Server.WithChallenge(Received(m), SP.AuthRespInfo(Crypted(salt), count), serverNonce);
      && ChallengeFor(info, r)
      && Server.AuthInfo(r) == Returned(RunInfo(info, clientNonce, salt, count, serverNonce))
      && Server.ChallengeOf(r) == ChallengeBody(info.deviceID.value, salt, count, serverNonce)
  {
    hide Crypted, ToLe, LittleEndianShort, ChallengeBody;
    CryptedTwice(salt);
    ShortsAgree(count);
    var id := info.deviceID.value;
    assert id[..|id|] == id && clientNonce[..32] == clientNonce && clientNonce[..32][..32] == clientNonce;
    assert salt[..32] == salt && serverNonce[..32] == serverNonce;
  }

  /** The client holds what it needs to answer: its nonce and key, and the root key of an encrypted run. */
  ghost predicate Started(c: Cipher, db: SP.Database, info: Client.AccessInfo, roots: map<string, Octets>,
                          assists: Client.Assists, clientNonce: Bytes32)
    requires Client.StartAllowed(info)
  {
    var d := Hex(info.deviceID.value);
    && d in assists && assists[d].clientNonce == clientNonce && assists[d].quantumKey == info.quantumKey.value
    && (info.encryptionAlgorithm == ENCRYPTION_ALGORITHM_AES ==>
          && CP.RootKey(roots, info.rootKeyId) == info.rootKeyValue
          && info.rootKeyId.value in db.rootKeys &&
            Crypted(db.rootKeys[info.rootKeyId.value]) == info.rootKeyValue.value
          && c.Serves(info.rootKeyValue.value))
  }

  /** The client's message when it sends its proof. */
  predicate ProofFor(info: Client.AccessInfo, m: Message, proof: Bytes32)
    requires Client.StartAllowed(info)
  {
    && Sendable(m) && m.messageType == CLIENT_PROOF && m.clientProof == Some(proof) && m.requestID == 120
    && m.deviceID == info.deviceID && m.encryptionAlgorithm == info.encryptionAlgorithm
    && (info.encryptionAlgorithm == ENCRYPTION_ALGORITHM_AES ==> m.encryptionKeyID == info.rootKeyId)
  }

  /** What the client reads off the challenge. */
  lemma ChallengeReceived(c: Cipher, db: SP.Database, info: Client.AccessInfo, roots: map<string, Octets>,
                          assists: Client.Assists, r: Message, salt: Bytes32, count: int, clientNonce: Bytes32,
                          serverNonce: Bytes32) returns (f: Octets, m: Message, rest: Octets)
    requires Client.StartAllowed(info) && Started(c, db, info, roots, assists, clientNonce) && ChallengeFor(info, r)
    requires count >= 0
    ensures SP.Wrap(c, db.rootKeys, r, ChallengeBody(info.deviceID.value, salt, count, serverNonce)) == Returned(f)
    ensures CP.Unwrap(c, roots, f) == Returned(Some(m))
    ensures m.messageType == ACCESS_AUTH_RESP && m.requestID == r.requestID && m.version == 1
    ensures m.encryptionAlgorithm == info.encryptionAlgorithm && m.deviceID == info.deviceID
    ensures info.encryptionAlgorithm == ENCRYPTION_ALGORITHM_AES ==> m.encryptionKeyID == info.rootKeyId
    ensures m.salt == Some(salt) && m.iterationCount == count % 65536 && m.serverNonce == Some(serverNonce + rest)
  {
    hide Hex, Crypted, SP.Wrap, CP.Unwrap, CP.RootKey, CP.UnwrapBody, ChallengeBody, Cipher.Serves;
    var id := info.deviceID.value;
    var body := ChallengeBody(id, salt, count, serverNonce);
    var heading;
    f, heading := ClientReadsServer(c, roots, db.rootKeys, r, body);
    rest := if info.encryptionAlgorithm == ENCRYPTION_ALGORITHM_AES then [] else f[|f| - 4..];
    ChallengeReadBack(heading, id, salt, count, serverNonce, rest);
    assert body + [] == body;
    m := CP.UnwrapBody(heading, body + rest).value;
  }

  /** The client's answer to it. */
  lemma ProofSent(p: Primitives, c: Cipher, db: SP.Database, info: Client.AccessInfo, roots: map<string, Octets>,
                  assists: Client.Assists, r: Message, salt: Bytes32, count: int, clientNonce: Bytes32,
                  serverNonce: Bytes32) returns (f: Octets, m: Message, g: Octets)
    requires Client.StartAllowed(info) && Started(c, db, info, roots, assists, clientNonce) && ChallengeFor(info, r)
    requires count >= 0 && count % 65536 != 0
    ensures SP.Wrap(c, db.rootKeys, r, ChallengeBody(info.deviceID.value, salt, count, serverNonce)) == Returned(f)
    ensures
      var run := RunInfo(info, clientNonce, salt, count, serverNonce);
      ProofFor(info, m, Client.ProofOf(p, WireKey(p, info, salt, count), run))
    ensures CP.Wrap(c, roots, m) == Returned(Some(g))
    ensures
      var d := Hex(info.deviceID.value);
      Client.Step(p, c, roots, assists, f) ==
      Client.Stepped(Returned(Client.Send(Some(g))),
                     assists[d := assists[d].(session := Some(RunSession(p, info, clientNonce, salt, count,
                                                                         serverNonce)))])
  {
    hide Hex, Crypted, SP.Wrap, CP.Wrap, CP.Unwrap, ChallengeBody, Started, ChallengeFor, ProofFor, Client.Prove,
      Client.ProofOf, RunInfo, RunSession, SharedRootKey;
    var received, rest;
    f, received, rest := ChallengeReceived(c, db, info, roots, assists, r, salt, count, clientNonce, serverNonce);
    StartedEntry(c, db, info, roots, assists, clientNonce);
    var a := assists[Hex(info.deviceID.value)];
    ProveForRun(p, a, received, info, salt, count, clientNonce, serverNonce, rest, r);
    m := Client.Prove(p, a, received).value.message;
    ProofShared(c, db, info, roots, assists, clientNonce, m,
                Client.ProofOf(p, WireKey(p, info, salt, count),
                               RunInfo(info, clientNonce, salt, count, serverNonce)));
    ServerReadsClient(c, roots, db.rootKeys, m);
    g := CP.Wrap(c, roots, m).value.value;
  }

  /** When the 16 bits are 0 the client throws at the challenge. */
  lemma ZeroCountThrows(p: Primitives, c: Cipher, db: SP.Database, info: Client.AccessInfo, roots: map<string, Octets>,
                        assists: Client.Assists, r: Message, salt: Bytes32, count: int, clientNonce: Bytes32,
                        serverNonce: Bytes32) returns (f: Octets)
    requires Client.StartAllowed(info) && Started(c, db, info, roots, assists, clientNonce) && ChallengeFor(info, r)
    requires count >= 0 && count % 65536 == 0
    ensures SP.Wrap(c, db.rootKeys, r, ChallengeBody(info.deviceID.value, salt, count, serverNonce)) == Returned(f)
    ensures Client.Step(p, c, roots, assists, f).answer == Thrown
  {
    hide Hex, SP.Wrap, CP.Unwrap, ChallengeBody, ChallengeFor;
    var received, rest;
    f, received, rest := ChallengeReceived(c, db, info, roots, assists, r, salt, count, clientNonce, serverNonce);
  }

  lemma StartedEntry(c: Cipher, db: SP.Database, info: Client.AccessInfo, roots: map<string, Octets>,
                     assists: Client.Assists, clientNonce: Bytes32)
    requires Client.StartAllowed(info) && Started(c, db, info, roots, assists, clientNonce)
    ensures
      var d := Hex(info.deviceID.value);
      d in assists && assists[d].clientNonce == clientNonce && assists[d].quantumKey == info.quantumKey.value
  {}

  lemma ProofShared(c: Cipher, db: SP.Database, info: Client.AccessInfo, roots: map<string, Octets>,
                    assists: Client.Assists, clientNonce: Bytes32, m: Message, proof: Bytes32)
    requires Client.StartAllowed(info) && Started(c, db, info, roots, assists, clientNonce) && ProofFor(info, m, proof)
    ensures Sendable(m) && SharedRootKey(c, roots, db.rootKeys, m) && RequestFits(m)
  {
    hide Hex, Crypted, CP.RootKey, Cipher.Serves;
  }

  lemma ProveForRun(p: Primitives, a: Client.Assist, m: Message, info: Client.AccessInfo, salt: Bytes32, count: int,
                    clientNonce: Bytes32, serverNonce: Bytes32, rest: Octets, r: Message)
    requires count % 65536 != 0 && Client.StartAllowed(info)
    requires a.clientNonce == clientNonce && a.quantumKey == info.quantumKey.value
    requires ChallengeFor(info, r) && m.requestID == r.requestID && m.version == 1
    requires m.encryptionAlgorithm == info.encryptionAlgorithm && m.deviceID == info.deviceID
    requires info.encryptionAlgorithm == ENCRYPTION_ALGORITHM_AES ==> m.encryptionKeyID == info.rootKeyId
    requires m.salt == Some(salt) && m.iterationCount == count % 65536 && m.serverNonce == Some(serverNonce + rest)
    ensures
      var key := WireKey(p, info, salt, count);
      var run := RunInfo(info, clientNonce, salt, count, serverNonce);
      && Client.Prove(p, a, m).Returned?
      && ProofFor(info, Client.Prove(p, a, m).value.message, Client.ProofOf(p, key, run))
      && Client.Prove(p, a, m).value.assist ==
         a.(session := Some(RunSession(p, info, clientNonce, salt, count, serverNonce)))
  {
    hide ToLe, Client.ProofOf, XorBytes;
    WireCount(count);
    assert clientNonce[..32] == clientNonce && salt[..32] == salt;
    assert (serverNonce + rest)[..32] == serverNonce[..32] == serverNonce;
  }

  /** Two bytes hold the low 16 bits. */
  lemma WireCount(count: int)
    ensures ToLe(count % 65536, 2) == ToLe(count, 2)
  {
    LowBytes(count);
    LowBytes(count % 65536);
    LowWord(count);
  }

  lemma LowWord(count: int)
    ensures Narrow(count % 65536) == Narrow(count) && Narrow(count % 65536 / 256) == Narrow(count / 256)
  {
    ModDigits(count, 256);
    var q, r := count / 256 % 256, count % 256;
    assert count % 65536 == q * 256 + r;
    ModUnique(count % 65536, q, r, 256);
    hide ByteOf;
  }

  /** The session of the run, as a SessionInfo. */
  function SessionOfRun(p: Primitives, info: Client.AccessInfo, clientNonce: Bytes32, salt: Bytes32, count: int,
                        serverNonce: Bytes32): Session
    requires Client.StartAllowed(info)
  {
    var s := RunSession(p, info, clientNonce, salt, count, serverNonce);
    Session(Hex(info.deviceID.value), Hex(s.sessionID), s.sessionKey)
  }

  /** The key the server recovers from the client's proof. */
  function RecoveredKey(p: Primitives, info: Client.AccessInfo, clientNonce: Bytes32, salt: Bytes32, count: int,
                        serverNonce: Bytes32): Bytes32
    requires Client.StartAllowed(info)
  {
    var run := RunInfo(info, clientNonce, salt, count, serverNonce);
    var proof := Client.ProofOf(p, WireKey(p, info, salt, count), run);
    Recovered(p, p.sha256(EnrolledKey(p, info, salt, count)), run, proof)
  }

  /** The server's test: the recovered key has the stored hash. */
  predicate Matches(p: Primitives, info: Client.AccessInfo, clientNonce: Bytes32, salt: Bytes32, count: int,
                    serverNonce: Bytes32)
    requires Client.StartAllowed(info)
  {
    var key := RecoveredKey(p, info, clientNonce, salt, count, serverNonce);
    p.sha256(key) == p.sha256(EnrolledKey(p, info, salt, count))
  }

  /** Both counts give the stored hash; they are the same count below 65536. */
  predicate SameHash(p: Primitives, info: Client.AccessInfo, salt: Bytes32, count: int)
    requires Client.StartAllowed(info)
  {
    p.sha256(WireKey(p, info, salt, count)) == p.sha256(EnrolledKey(p, info, salt, count))
  }

  /** What the server grants when its test succeeds. */
  function Granted(p: Primitives, info: Client.AccessInfo, clientNonce: Bytes32, salt: Bytes32, count: int,
                   serverNonce: Bytes32): (s: Session)
    requires Client.StartAllowed(info)
    ensures |s.sessionKey| == 32
  {
    var key := RecoveredKey(p, info, clientNonce, salt, count, serverNonce);
    var s := Client.SessionFor(p, info.deviceID.value, key, clientNonce, serverNonce,
                               RunInfo(info, clientNonce, salt, count, serverNonce));
    Session(Hex(info.deviceID.value), Hex(s.sessionID), s.sessionKey)
  }

  lemma SameHashMatches(p: Primitives, info: Client.AccessInfo, clientNonce: Bytes32, salt: Bytes32, count: int,
                        serverNonce: Bytes32)
    requires Client.StartAllowed(info) && SameHash(p, info, salt, count)
    ensures Matches(p, info, clientNonce, salt, count, serverNonce)
    ensures Granted(p, info, clientNonce, salt, count, serverNonce) ==
            SessionOfRun(p, info, clientNonce, salt, count, serverNonce)
  {
    hide Hex, RunInfo, XorBytes, Client.SessionFor;
    var run, key := RunInfo(info, clientNonce, salt, count, serverNonce), WireKey(p, info, salt, count);
    XorBytesTwice(key, p.hmac(p.sha256(key), run));
  }

  /** The stored challenge and the client's proof, where the server meets them. */
  ghost predicate ProofArrives(p: Primitives, c: Cipher, db: SP.Database, info: Client.AccessInfo,
                               roots: map<string, Octets>, stored: map<string, Octets>, m: Message, g: Octets,
                               salt: Bytes32, count: int, clientNonce: Bytes32, serverNonce: Bytes32)
    requires Client.StartAllowed(info)
  {
    var d, run := Hex(info.deviceID.value), RunInfo(info, clientNonce, salt, count, serverNonce);
    && CP.Wrap(c, roots, m) == Returned(Some(g)) && d in stored && stored[d] == run
    && ProofFor(info, m, Client.ProofOf(p, WireKey(p, info, salt, count), run))
  }

  /** If its test succeeds, the server grants the session and removes the challenge. */
  lemma ProofAccepted(p: Primitives, c: Cipher, db: SP.Database, info: Client.AccessInfo, roots: map<string, Octets>,
                      assists: Client.Assists, stored: map<string, Octets>, m: Message, g: Octets, salt: Bytes32,
                      count: int, clientNonce: Bytes32, serverNonce: Bytes32, unused: Bytes32) returns (r: Message)
    requires Client.StartAllowed(info) && Started(c, db, info, roots, assists, clientNonce)
    requires Enrolled(p, c, db, info, salt, count)
    requires ProofArrives(p, c, db, info, roots, stored, m, g, salt, count, clientNonce, serverNonce)
    requires Matches(p, info, clientNonce, salt, count, serverNonce)
    ensures Answerable(r) && r.messageType == SERVER_PROOF && r.encryptionAlgorithm == info.encryptionAlgorithm
    ensures r.requestID == 120
    ensures info.encryptionAlgorithm == ENCRYPTION_ALGORITHM_AES ==> r.encryptionKeyID == info.rootKeyId
    ensures
      var s := Server.Step(p, c, db, stored, g, unused);
      var session := Granted(p, info, clientNonce, salt, count, serverNonce);
      && var w := SP.Wrap(c, db.rootKeys, r, ProofBody(info.deviceID.value, session.sessionKey));
         w.Returned? ==>
           && s.pending == stored - {Hex(info.deviceID.value)}
           && s.reply.Returned? && s.reply.value.message == w.value && s.reply.value.session == Some(session)
  {
    hide Hex, SP.Wrap, SP.Unwrap, ProofFor, Client.ProofOf, RunInfo, Granted, Matches, Started, Server.Step, Enrolled,
      ProofBody;
    ProofRead(p, c, db, info, roots, assists, stored, m, g, salt, count, clientNonce, serverNonce);
    r := Received(m).(messageType := SERVER_PROOF);
    CheckDecides(p, c, db, info, stored, salt, count, clientNonce, serverNonce);
    ServerGrants(p, c, db, stored, g, Received(m), unused, Granted(p, info, clientNonce, salt, count, serverNonce));
  }

  /** If it fails, the server answers with a failure. */
  lemma ProofRejected(p: Primitives, c: Cipher, db: SP.Database, info: Client.AccessInfo, roots: map<string, Octets>,
                      assists: Client.Assists, stored: map<string, Octets>, m: Message, g: Octets, salt: Bytes32,
                      count: int, clientNonce: Bytes32, serverNonce: Bytes32, unused: Bytes32)
    requires Client.StartAllowed(info) && Started(c, db, info, roots, assists, clientNonce)
    requires Enrolled(p, c, db, info, salt, count)
    requires ProofArrives(p, c, db, info, roots, stored, m, g, salt, count, clientNonce, serverNonce)
    requires !Matches(p, info, clientNonce, salt, count, serverNonce)
    ensures
      var s := Server.Step(p, c, db, stored, g, unused);
      s.reply.Returned? && s.reply.value.message == SP.StatusFrame(SERVER_PROOF, m.requestID, FAILURE)
  {
    hide Hex, SP.Wrap, SP.Unwrap, SP.StatusFrame, ProofFor, Client.ProofOf, RunInfo, Matches, Started, Enrolled,
      Server.Check;
    ProofRead(p, c, db, info, roots, assists, stored, m, g, salt, count, clientNonce, serverNonce);
    CheckDecides(p, c, db, info, stored, salt, count, clientNonce, serverNonce);
  }

  /** What the server reads off the proof frame. */
  lemma ProofRead(p: Primitives, c: Cipher, db: SP.Database, info: Client.AccessInfo, roots: map<string, Octets>,
                  assists: Client.Assists, stored: map<string, Octets>, m: Message, g: Octets, salt: Bytes32,
                  count: int, clientNonce: Bytes32, serverNonce: Bytes32)
    requires Client.StartAllowed(info) && Started(c, db, info, roots, assists, clientNonce)
    requires ProofArrives(p, c, db, info, roots, stored, m, g, salt, count, clientNonce, serverNonce)
    ensures Sendable(m) && SP.Unwrap(c, db.rootKeys, g) == Returned(Received(m))
    ensures
      var r := Received(m);
      var run := RunInfo(info, clientNonce, salt, count, serverNonce);
      && r.messageType == CLIENT_PROOF && r.status == SUCCESS && r.deviceID == info.deviceID
      && r.requestID == m.requestID == 120
      && r.deviceIDLength == |info.deviceID.value|
      && r.clientProof == Some(Client.ProofOf(p, WireKey(p, info, salt, count), run))
      && r.encryptionAlgorithm == info.encryptionAlgorithm && Answerable(r.(messageType := SERVER_PROOF))
      && (info.encryptionAlgorithm == ENCRYPTION_ALGORITHM_AES ==> r.encryptionKeyID == info.rootKeyId)
  {
    hide Hex, Crypted, CP.Wrap, SP.Unwrap, ProofFor, Client.ProofOf, RunInfo, SharedRootKey, Started, Received;
    var proof := Client.ProofOf(p, WireKey(p, info, salt, count), RunInfo(info, clientNonce, salt, count, serverNonce));
    ProofShared(c, db, info, roots, assists, clientNonce, m, proof);
    ServerReadsClient(c, roots, db.rootKeys, m);
    ReceivedProof(info, m, proof);
  }

  lemma ReceivedProof(info: Client.AccessInfo, m: Message, proof: Bytes32)
    requires Client.StartAllowed(info) && ProofFor(info, m, proof)
    ensures
      var r := Received(m);
      && r.messageType == CLIENT_PROOF && r.status == SUCCESS && r.deviceID == info.deviceID
      && r.deviceIDLength == |info.deviceID.value| && r.clientProof == Some(proof)
      && r.requestID == m.requestID == 120
      && r.encryptionAlgorithm == info.encryptionAlgorithm && Answerable(r.(messageType := SERVER_PROOF))
      && (info.encryptionAlgorithm == ENCRYPTION_ALGORITHM_AES ==> r.encryptionKeyID == info.rootKeyId)
  {
    assert proof[..32] == proof;
  }

  /** The branch of the server that grants a session. */
  lemma ServerGrants(p: Primitives, c: Cipher, db: SP.Database, stored: map<string, Octets>, f: Octets, m: Message,
                     unused: Bytes32, session: Session)
    requires SP.Unwrap(c, db.rootKeys, f) == Returned(m) && m.messageType == CLIENT_PROOF && m.status == SUCCESS
    requires m.deviceID.Some? && m.deviceIDLength == |m.deviceID.value|
    requires Server.Check(p, db, stored, m.clientProof, Hex(m.deviceID.value)) == Returned(Some(session))
    ensures
      var s := Server.Step(p, c, db, stored, f, unused);
      var w := SP.Wrap(c, db.rootKeys, m.(messageType := SERVER_PROOF),
                       ProofBody(m.deviceID.value, session.sessionKey));
      w.Returned? ==>
        && s.pending == stored - {Hex(m.deviceID.value)}
        && s.reply.Returned? && s.reply.value.message == w.value && s.reply.value.session == Some(session)
  {
    hide Hex, Unhex, SP.Unwrap, SP.Wrap, Server.Check, ProofBody;
    assert m.deviceID.value[..m.deviceIDLength] == m.deviceID.value;
  }

  /** The check of the client's proof against the stored challenge. */
  lemma CheckDecides(p: Primitives, c: Cipher, db: SP.Database, info: Client.AccessInfo, stored: map<string, Octets>,
                     salt: Bytes32, count: int, clientNonce: Bytes32, serverNonce: Bytes32)
    requires Client.StartAllowed(info) && Enrolled(p, c, db, info, salt, count)
    requires
      var d := Hex(info.deviceID.value);
      d in stored && stored[d] == RunInfo(info, clientNonce, salt, count, serverNonce)
    ensures
      var run := RunInfo(info, clientNonce, salt, count, serverNonce);
      var proof := Client.ProofOf(p, WireKey(p, info, salt, count), run);
      Server.Check(p, db, stored, Some(proof), Hex(info.deviceID.value)) ==
      Returned(if Matches(p, info, clientNonce, salt, count, serverNonce)
               then Some(Granted(p, info, clientNonce, salt, count, serverNonce)) else None)
  {
    hide Hex, Crypted, Info, ToLe, Server.SessionOf, Client.SessionFor, XorBytes, Client.ProofOf, Recovered,
      Server.CheckProof;
    var d, run := Hex(info.deviceID.value), RunInfo(info, clientNonce, salt, count, serverNonce);
    var password := p.sha256(EnrolledKey(p, info, salt, count));
    var key := RecoveredKey(p, info, clientNonce, salt, count, serverNonce);
    CryptedTwice(password);
    SlicesWhole(clientNonce, salt, serverNonce);
    SameSession(p, info.deviceID.value, key, clientNonce, salt, count, serverNonce);
    Verdict(p, password, run, Client.ProofOf(p, WireKey(p, info, salt, count), run), d,
            Granted(p, info, clientNonce, salt, count, serverNonce));
  }

  lemma SlicesWhole(x: Bytes32, y: Bytes32, z: Bytes32)
    ensures x[..32] == x && y[..32] == y && z[..32] == z
  {}

  lemma Verdict(p: Primitives, password: Bytes32, info: Octets, proof: Bytes32, d: string, s: Session)
    requires Server.SessionOf(p, Recovered(p, password, info, proof), info, d) == Returned(s)
    ensures Server.CheckProof(p, password, info, proof, d) ==
            Returned(if p.sha256(Recovered(p, password, info, proof)) == password then Some(s) else None)
  {
    hide Server.SessionOf, XorBytes;
    var h := p.hmac(password, info);
    assert proof[..32] == proof && h[..32] == h;
  }

  /** The client accepts the server's proof exactly if it is its own session key. */
  lemma ServerVerified(p: Primitives, c: Cipher, db: SP.Database, info: Client.AccessInfo, roots: map<string, Octets>,
                       assists: Client.Assists, r: Message, clientNonce: Bytes32, s: Client.ClientSession,
                       proof: Bytes32)
    returns (f: Octets)
    requires Client.StartAllowed(info) && Started(c, db, info, roots, assists, clientNonce)
    requires Answerable(r) && r.messageType == SERVER_PROOF && r.encryptionAlgorithm == info.encryptionAlgorithm
    requires info.encryptionAlgorithm == ENCRYPTION_ALGORITHM_AES ==> r.encryptionKeyID == info.rootKeyId
    requires assists[Hex(info.deviceID.value)].session == Some(s)
    ensures SP.Wrap(c, db.rootKeys, r, ProofBody(info.deviceID.value, proof)) == Returned(f)
    ensures
      var d := Hex(info.deviceID.value);
      Client.Step(p, c, roots, assists, f) ==
      if proof == s.sessionKey
      then Client.Stepped(Returned(Client.Checked(Some(Session(d, Hex(s.sessionID), s.sessionKey)))),
                          assists[d := Client.Verified(assists[d])])
      else Client.Stepped(Returned(Client.Checked(None)), assists)
  {
    hide Hex, SP.Wrap, CP.Unwrap, ProofBody, Started;
    var m;
    f, m := ServerProofReceived(c, db, info, roots, assists, r, clientNonce, proof);
    StartedEntry(c, db, info, roots, assists, clientNonce);
  }

  /** What the client reads off the server's proof. */
  lemma ServerProofReceived(c: Cipher, db: SP.Database, info: Client.AccessInfo, roots: map<string, Octets>,
                            assists: Client.Assists, r: Message, clientNonce: Bytes32, proof: Bytes32)
    returns (f: Octets, m: Message)
    requires Client.StartAllowed(info) && Started(c, db, info, roots, assists, clientNonce)
    requires Answerable(r) && r.messageType == SERVER_PROOF && r.encryptionAlgorithm == info.encryptionAlgorithm
    requires info.encryptionAlgorithm == ENCRYPTION_ALGORITHM_AES ==> r.encryptionKeyID == info.rootKeyId
    ensures SP.Wrap(c, db.rootKeys, r, ProofBody(info.deviceID.value, proof)) == Returned(f)
    ensures CP.Unwrap(c, roots, f) == Returned(Some(m))
    ensures m.messageType == SERVER_PROOF && m.deviceID == info.deviceID && m.serverProof == Some(proof)
  {
    hide Hex, Crypted, SP.Wrap, CP.Unwrap, CP.RootKey, CP.UnwrapBody, ProofBody, Cipher.Serves;
    var id := info.deviceID.value;
    var body := ProofBody(id, proof);
    var heading;
    f, heading := ClientReadsServer(c, roots, db.rootKeys, r, body);
    var rest := if info.encryptionAlgorithm == ENCRYPTION_ALGORITHM_AES then [] else f[|f| - 4..];
    ProofReadBack(heading, id, proof, rest);
    assert body + [] == body;
    m := CP.UnwrapBody(heading, body + rest).value;
  }

  /** For every enrolled device, every salt, count and pair of nonces, in plain or AES mode, and whatever else
      either side has stored: the delivered handshake ends exactly if the 16 bits of the count that the client sees
      are not 0 and the server's test succeeds. It does if both counts give the stored hash, as they do below
      65536; then one and the same session is on both sides, the client's entry is marked successful, and the
      server's challenge consumed. */
  lemma Completeness(p: Primitives, c: Cipher, db: SP.Database, info: Client.AccessInfo, roots: map<string, Octets>,
                     assists: Client.Assists, stored: map<string, Octets>, salt: Bytes32, count: int,
                     clientNonce: Bytes32, serverNonce: Bytes32, unused: Bytes32)
    requires Client.StartAllowed(info) && Enrolled(p, c, db, info, salt, count)
    ensures
      var run := Deliver(p, c, db, info, roots, assists, stored, clientNonce, serverNonce, unused);
      && (run.Some? <==> count % 65536 != 0 && Matches(p, info, clientNonce, salt, count, serverNonce))
      && (run.Some? && SameHash(p, info, salt, count) ==>
            Finished(p, info, run.value, stored, salt, count, clientNonce, serverNonce))
    ensures SameHash(p, info, salt, count) ==> Matches(p, info, clientNonce, salt, count, serverNonce)
    ensures count < 65536 ==> SameHash(p, info, salt, count)
  {
    hide Deliver, Finished, Matches, SameHash, Enrolled;
    SmallCount(p, c, db, info, salt, count);
    if count % 65536 == 0 {
      NoneWithoutCount(p, c, db, info, roots, assists, stored, salt, count, clientNonce, serverNonce, unused);
    } else {
      Delivered(p, c, db, info, roots, assists, stored, salt, count, clientNonce, serverNonce, unused);
    }
    if SameHash(p, info, salt, count) {
      SameHashMatches(p, info, clientNonce, salt, count, serverNonce);
    }
  }

  lemma SmallCount(p: Primitives, c: Cipher, db: SP.Database, info: Client.AccessInfo, salt: Bytes32, count: int)
    requires Client.StartAllowed(info) && Enrolled(p, c, db, info, salt, count)
    ensures count < 65536 ==> SameHash(p, info, salt, count)
  {
    hide SameHash;
    CountOfRow(p, c, db, info, salt, count);
    hide Enrolled;
    if count < 65536 {
      CountFits(p, info, salt, count);
    }
  }

  lemma CountOfRow(p: Primitives, c: Cipher, db: SP.Database, info: Client.AccessInfo, salt: Bytes32, count: int)
    requires Client.StartAllowed(info) && Enrolled(p, c, db, info, salt, count)
    ensures count >= 0
  {
    hide Hex, Crypted, Cipher.Serves;
  }

  lemma CountFits(p: Primitives, info: Client.AccessInfo, salt: Bytes32, count: int)
    requires Client.StartAllowed(info) && 0 <= count < 65536
    ensures SameHash(p, info, salt, count)
  {
    hide Hex, Client.StartAllowed;
    assert count % 65536 == count;
  }

  predicate Finished(p: Primitives, info: Client.AccessInfo, run: Run, stored: map<string, Octets>, salt: Bytes32,
                     count: int, clientNonce: Bytes32, serverNonce: Bytes32)
    requires Client.StartAllowed(info)
  {
    var session := Some(SessionOfRun(p, info, clientNonce, salt, count, serverNonce));
    var d := Hex(info.deviceID.value);
    && run.server == session && run.client == session && run.stored == stored - {d}
    && d in run.assists && run.assists[d].success && run.assists[d].latch == 0
    && Client.Collected(run.assists, info.deviceID.value).0 ==
       Returned(Some(RunSession(p, info, clientNonce, salt, count, serverNonce)))
  }

  lemma NoneWithoutCount(p: Primitives, c: Cipher, db: SP.Database, info: Client.AccessInfo, roots: map<string, Octets>,
                         assists: Client.Assists, stored: map<string, Octets>, salt: Bytes32, count: int,
                         clientNonce: Bytes32, serverNonce: Bytes32, unused: Bytes32)
    requires Client.StartAllowed(info) && Enrolled(p, c, db, info, salt, count) && count % 65536 == 0
    ensures Deliver1(p, c, db, info, roots, assists, stored, clientNonce, serverNonce).None?
    ensures Deliver(p, c, db, info, roots, assists, stored, clientNonce, serverNonce, unused).None?
  {
    hide Hex, Enrolled, Started, SP.Wrap, CP.Wrap, CP.RootsAfter, Server.Step, Client.Step, RunInfo, ChallengeBody,
      ChallengeFor, Client.StartMessage, Client.Restarted;
    var request, r := ChallengeSent(p, c, db, info, roots, stored, salt, count, clientNonce, serverNonce);
    StartedAfter(p, c, db, info, roots, assists, salt, count, clientNonce);
    var f := ZeroCountThrows(p, c, db, info, CP.RootsAfter(roots, Client.StartMessage(info, clientNonce)),
                             Client.Restarted(assists, info, clientNonce), r, salt, count, clientNonce, serverNonce);
  }

  /** The first half: the challenge is stored, and the client's proof for it is on its way. */
  lemma HalfDelivered(p: Primitives, c: Cipher, db: SP.Database, info: Client.AccessInfo, roots: map<string, Octets>,
                      assists: Client.Assists, stored: map<string, Octets>, salt: Bytes32, count: int,
                      clientNonce: Bytes32, serverNonce: Bytes32) returns (m: Message)
    requires Client.StartAllowed(info) && Enrolled(p, c, db, info, salt, count) && count % 65536 != 0
    ensures
      var d, started := Hex(info.deviceID.value), Client.Restarted(assists, info, clientNonce);
      var after := CP.RootsAfter(roots, Client.StartMessage(info, clientNonce));
      var half := Deliver1(p, c, db, info, roots, assists, stored, clientNonce, serverNonce);
      && Started(c, db, info, after, started, clientNonce) && d in started && half.Some?
      && half.value.stored == stored[d := RunInfo(info, clientNonce, salt, count, serverNonce)]
      && half.value.assists ==
         started[d := started[d].(session := Some(RunSession(p, info, clientNonce, salt, count, serverNonce)))]
      && ProofArrives(p, c, db, info, after, half.value.stored, m, half.value.proof, salt, count, clientNonce,
                      serverNonce)
  {
    hide Hex, Enrolled, Started, SP.Wrap, CP.Wrap, CP.RootsAfter, Server.Step, Client.Step, RunInfo, RunSession,
      ChallengeBody, ChallengeFor, ProofFor, Client.ProofOf, Client.StartMessage, Client.Restarted;
    var after, started := CP.RootsAfter(roots, Client.StartMessage(info, clientNonce)),
      Client.Restarted(assists, info, clientNonce);
    var request, r := ChallengeSent(p, c, db, info, roots, stored, salt, count, clientNonce, serverNonce);
    StartedAfter(p, c, db, info, roots, assists, salt, count, clientNonce);
    StartedEntry(c, db, info, after, started, clientNonce);
    var f, g;
    f, m, g := ProofSent(p, c, db, info, after, started, r, salt, count, clientNonce, serverNonce);
  }

  lemma Delivered(p: Primitives, c: Cipher, db: SP.Database, info: Client.AccessInfo, roots: map<string, Octets>,
                  assists: Client.Assists, stored: map<string, Octets>, salt: Bytes32, count: int,
                  clientNonce: Bytes32, serverNonce: Bytes32, unused: Bytes32)
    requires Client.StartAllowed(info) && Enrolled(p, c, db, info, salt, count) && count % 65536 != 0
    ensures
      var run := Deliver(p, c, db, info, roots, assists, stored, clientNonce, serverNonce, unused);
      && (run.Some? <==> Matches(p, info, clientNonce, salt, count, serverNonce))
      && (run.Some? && SameHash(p, info, salt, count) ==>
            Finished(p, info, run.value, stored, salt, count, clientNonce, serverNonce))
  {
    hide Hex, Enrolled, Started, CP.RootsAfter, RunInfo, RunSession, Client.StartMessage, Matches, SameHash, Finished,
      Client.Restarted, Deliver1, Deliver2, ProofArrives;
    var after := CP.RootsAfter(roots, Client.StartMessage(info, clientNonce));
    var m := HalfDelivered(p, c, db, info, roots, assists, stored, salt, count, clientNonce, serverNonce);
    var half := Deliver1(p, c, db, info, roots, assists, stored, clientNonce, serverNonce).value;
    ProofDelivered(p, c, db, info, after, assists, stored, m, half.proof, salt, count, clientNonce, serverNonce,
                   unused);
  }

  /** The second half. */
  lemma ProofDelivered(p: Primitives, c: Cipher, db: SP.Database, info: Client.AccessInfo, roots: map<string, Octets>,
                       assists: Client.Assists, stored: map<string, Octets>, m: Message, g: Octets, salt: Bytes32,
                       count: int, clientNonce: Bytes32, serverNonce: Bytes32, unused: Bytes32)
    requires Client.StartAllowed(info) && Enrolled(p, c, db, info, salt, count)
    requires Started(c, db, info, roots, Client.Restarted(assists, info, clientNonce), clientNonce)
    requires
      var d := Hex(info.deviceID.value);
      var challenged := stored[d := RunInfo(info, clientNonce, salt, count, serverNonce)];
      ProofArrives(p, c, db, info, roots, challenged, m, g, salt, count, clientNonce, serverNonce)
    ensures
      var d, started := Hex(info.deviceID.value), Client.Restarted(assists, info, clientNonce);
      var challenged := stored[d := RunInfo(info, clientNonce, salt, count, serverNonce)];
      var s := RunSession(p, info, clientNonce, salt, count, serverNonce);
      && d in started
      && var run := Deliver2(p, c, db, roots, started[d := started[d].(session := Some(s))], challenged, g, unused);
      && (run.Some? <==> Matches(p, info, clientNonce, salt, count, serverNonce))
      && (run.Some? && SameHash(p, info, salt, count) ==>
            Finished(p, info, run.value, stored, salt, count, clientNonce, serverNonce))
  {
    hide Hex, Enrolled, Started, SP.Wrap, Server.Step, Client.Step, RunInfo, RunSession, ProofBody, Answerable,
      ProofArrives, Matches, SameHash, Granted, SP.StatusFrame;
    var d, started := Hex(info.deviceID.value), Client.Restarted(assists, info, clientNonce);
    var challenged := stored[d := RunInfo(info, clientNonce, salt, count, serverNonce)];
    var s := RunSession(p, info, clientNonce, salt, count, serverNonce);
    var proven := started[d := started[d].(session := Some(s))];
    StartedStays(c, db, info, roots, started, clientNonce, s);
    if Matches(p, info, clientNonce, salt, count, serverNonce) {
      var granted := Granted(p, info, clientNonce, salt, count, serverNonce);
      var r := ProofAccepted(p, c, db, info, roots, started, challenged, m, g, salt, count, clientNonce, serverNonce,
                             unused);
      var f := ServerVerified(p, c, db, info, roots, proven, r, clientNonce, s, granted.sessionKey);
      if SameHash(p, info, salt, count) {
        SameHashMatches(p, info, clientNonce, salt, count, serverNonce);
        assert challenged - {d} == stored - {d};
      }
    } else {
      ProofRejected(p, c, db, info, roots, started, challenged, m, g, salt, count, clientNonce, serverNonce, unused);
      RefusalIgnored(p, c, roots, proven, SERVER_PROOF, m.requestID);
    }
  }

  lemma StartedAfter(p: Primitives, c: Cipher, db: SP.Database, info: Client.AccessInfo, roots: map<string, Octets>,
                     assists: Client.Assists, salt: Bytes32, count: int, clientNonce: Bytes32)
    requires Client.StartAllowed(info) && Enrolled(p, c, db, info, salt, count)
    ensures Started(c, db, info, CP.RootsAfter(roots, Client.StartMessage(info, clientNonce)),
                    Client.Restarted(assists, info, clientNonce), clientNonce)
    ensures count >= 0
  {
    hide Hex, Crypted, CP.RootKey, CP.RootsAfter, Cipher.Serves, Client.StartMessage;
    if info.encryptionAlgorithm == ENCRYPTION_ALGORITHM_AES {
      CryptedTwice(info.rootKeyValue.value);
      StartRegisters(info, roots, clientNonce);
    }
  }

  lemma StartedStays(c: Cipher, db: SP.Database, info: Client.AccessInfo, roots: map<string, Octets>,
                     assists: Client.Assists, clientNonce: Bytes32, s: Client.ClientSession)
    requires Client.StartAllowed(info) && Started(c, db, info, roots, assists, clientNonce)
    ensures
      var d := Hex(info.deviceID.value);
      d in assists && Started(c, db, info, roots, assists[d := assists[d].(session := Some(s))], clientNonce)
  {
    hide Hex, Crypted, CP.RootKey, Cipher.Serves;
  }

  // ----- refusals

  /** Whatever refusal the server sends, the client takes nothing from it and changes nothing. */
  lemma RefusalIgnored(p: Primitives, c: Cipher, roots: map<string, Octets>, assists: Client.Assists, messageType: int,
                       requestID: int)
    ensures Client.Step(p, c, roots, assists, SP.StatusFrame(messageType, requestID, FAILURE)) ==
            Client.Stepped(Returned(Client.Nothing), assists)
  {
    hide Narrow, Signed, BigEndianShort;
    SignedNarrow(FAILURE);
    var f := SP.StatusFrame(messageType, requestID, FAILURE);
    assert f[3] == Narrow(FAILURE);
  }

  /** What the client gets from a refused request, and what the server keeps of it. */
  predicate Refused(p: Primitives, c: Cipher, roots: map<string, Octets>, assists: Client.Assists,
                    stored: map<string, Octets>, s: Server.Stepped) {
    && s.pending == stored
    && s.reply == Returned(Server.Reply(SP.StatusFrame(ACCESS_AUTH_RESP, 120, FAILURE), Some(ACCESS_AUTH_RESP),
                                        None, None))
    && Client.Step(p, c, roots, assists, s.reply.value.message) == Client.Stepped(Returned(Client.Nothing), assists)
  }

  /** The request of a device without a row is refused, in either mode: no challenge is stored, and the client
      learns nothing. */
  lemma UnknownDeviceRefused(p: Primitives, c: Cipher, db: SP.Database, info: Client.AccessInfo,
                             roots: map<string, Octets>, assists: Client.Assists, stored: map<string, Octets>,
                             clientNonce: Bytes32, serverNonce: Bytes32)
    requires Client.StartAllowed(info)
    requires info.encryptionAlgorithm in {ENCRYPTION_ALGORITHM_DEFAULT, ENCRYPTION_ALGORITHM_AES}
    requires SharedRootKey(c, roots, db.rootKeys, Client.StartMessage(info, clientNonce))
    requires Hex(info.deviceID.value) !in db.challenges
    ensures
      var w := CP.Wrap(c, roots, Client.StartMessage(info, clientNonce));
      && w.Returned? && w.value.Some?
      && Refused(p, c, roots, assists, stored, Server.Step(p, c, db, stored, w.value.value, serverNonce))
  {
    hide Hex, CP.Wrap, SP.Unwrap, SP.StatusFrame, Client.Step, Received, SharedRootKey;
    var m := Client.StartMessage(info, clientNonce);
    ServerReadsClient(c, roots, db.rootKeys, m);
    ReceivedStart(info, clientNonce);
    ReceivedID(info, clientNonce);
    RefusalIgnored(p, c, roots, assists, ACCESS_AUTH_RESP, 120);
  }

  /** So is an encrypted request whose root key the server does not have, whatever the cipher made of it. */
  lemma UnknownRootKeyRefused(p: Primitives, c: Cipher, db: SP.Database, info: Client.AccessInfo,
                              roots: map<string, Octets>, assists: Client.Assists, stored: map<string, Octets>,
                              clientNonce: Bytes32, serverNonce: Bytes32, request: Octets)
    requires Client.StartAllowed(info) && info.encryptionAlgorithm == ENCRYPTION_ALGORITHM_AES
    requires info.rootKeyId.value !in db.rootKeys
    requires CP.Wrap(c, roots, Client.StartMessage(info, clientNonce)) == Returned(Some(request))
    ensures Refused(p, c, roots, assists, stored, Server.Step(p, c, db, stored, request, serverNonce))
  {
    hide SP.Unwrap, SP.StatusFrame, Client.Step, CP.Wrap, CP.Encrypted;
    var m := Client.StartMessage(info, clientNonce);
    var e := EncryptedWrap(c, roots, m, request);
    ServerLacksKey(c, db.rootKeys, m, e);
    RefusalIgnored(p, c, roots, assists, ACCESS_AUTH_RESP, 120);
  }

  lemma ReceivedID(info: Client.AccessInfo, clientNonce: Bytes32)
    requires Client.StartAllowed(info)
    ensures Received(Client.StartMessage(info, clientNonce)).requestID == 120
  {}
}
