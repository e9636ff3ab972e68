/** The handshake as bytes: the four frames of a completed run, field by field, with what they carry. */
module Wire {
  import opened Bytes
  import opened BlockModes
  import opened JavaBytes
  import opened PassCryp
  import opened Crc32
  import opened Messages
  import opened Algorithms
  import Frames
  import CP = ClientPackets
  import SP = ServerPackets
  import Client = ClientProcessor
  import Server = ServerProcessor
  import H = Handshake
  import Runs = ServerRuns

  /** Type, request id 120, status 0, data length, version 1, mode, body length, root key id, body, CRC. */
  function PlainFrame(messageType: bv8, body: Octets): Octets {
    Sealed([messageType, 0, 120, 0, Narrow(4 + |body|), 1, 0, Narrow(|body| / 256), Narrow(|body|)] + body)
  }

  function EncryptedFrame(messageType: bv8, keyID: Octets, e: Octets): Octets {
    Sealed([messageType, 0, 120, 0, Narrow(20 + |e|), 1, 1, Narrow(|e| / 256), Narrow(|e|)] + keyID + e)
  }

  /** A body in the mode of the device. */
  function OnWire(c: Cipher, info: Client.AccessInfo, messageType: bv8, body: Octets): Octets
    requires Client.StartAllowed(info)
  {
    if info.encryptionAlgorithm == 1 then
      var e := c.encrypt(body, info.rootKeyValue.value);
      EncryptedFrame(messageType, info.rootKeyId.value, if e.Some? then e.value else [])
    else PlainFrame(messageType, body)
  }

  lemma Literals()
    ensures Narrow(0) == 0 && Narrow(1) == 1 && Narrow(120) == 120
    ensures Narrow(81) == 81 && Narrow(82) == 82 && Narrow(83) == 83 && Narrow(84) == 84
  {
    NarrowOfByte(0);
    NarrowOfByte(1);
    NarrowOfByte(120);
    NarrowOfByte(81);
    NarrowOfByte(82);
    NarrowOfByte(83);
    NarrowOfByte(84);
  }

  /** The layout that both codecs build. */
  lemma FrameBytes(messageType: int, algorithm: int, keyID: Octets, body: Octets)
    ensures
      var data := Header(1, algorithm, |body|, keyID) + body;
      Frame(messageType, 120, 0, 4 + |keyID| + |body|, data) ==
      Sealed([Narrow(messageType), 0, 120, 0, Narrow(4 + |keyID| + |body|), 1, Narrow(algorithm), Narrow(|body| / 256),
              Narrow(|body|)] + keyID + body)
  {
    Literals();
    ToBeTwo(120);
    ToBeTwo(|body|);
    hide Narrow, Sealed, ToBe;
    var data := Header(1, algorithm, |body|, keyID) + body;
    var n := Narrow(4 + |keyID| + |body|);
    var head := [Narrow(messageType), 0, 120, 0, n, 1, Narrow(algorithm), Narrow(|body| / 256), Narrow(|body|)];
    assert [Narrow(messageType)] + ToBe(120, 2) + [Narrow(0), n] + data == head + keyID + body;
  }

  lemma PlainBytes(messageType: int, t: bv8, body: Octets)
    requires Narrow(messageType) == t
    ensures Frame(messageType, 120, 0, 4 + |body|, Header(1, 0, |body|, []) + body) == PlainFrame(t, body)
  {
    hide Narrow, Sealed, Frame, Header;
    Literals();
    FrameBytes(messageType, 0, [], body);
    var head := [t, 0, 120, 0, Narrow(4 + |body|), 1, 0, Narrow(|body| / 256), Narrow(|body|)];
    assert head + [] + body == head + body;
  }

  lemma EncryptedBytes(messageType: int, t: bv8, keyID: Octets, e: Octets)
    requires Narrow(messageType) == t && |keyID| == 16
    ensures Frame(messageType, 120, 0, 20 + |e|, Header(1, 1, |e|, keyID) + e) == EncryptedFrame(t, keyID, e)
  {
    hide Narrow, Sealed, Frame, Header;
    Literals();
    FrameBytes(messageType, 1, keyID, e);
  }

  /** Both sides hold the root key of an encrypted run. */
  ghost predicate SharesKey(c: Cipher, db: SP.Database, info: Client.AccessInfo)
    requires Client.StartAllowed(info)
  {
    info.encryptionAlgorithm in {0, 1} &&
    (info.encryptionAlgorithm == 1 ==>
       && info.rootKeyId.value in db.rootKeys && c.Serves(info.rootKeyValue.value)
       && Crypted(db.rootKeys[info.rootKeyId.value]) == info.rootKeyValue.value)
  }

  /** The client's frames. */
  lemma ClientOnWire(c: Cipher, db: SP.Database, info: Client.AccessInfo, roots: map<string, Octets>, m: Message,
                     body: Octets, messageType: bv8)
    requires Client.StartAllowed(info) && SharesKey(c, db, info) && CP.Body(m) == Returned(body)
    requires m.messageType in {81, 83} && messageType == (if m.messageType == 81 then 81 else 83)
    requires m.requestID == 120 && m.status == 0 && m.version == 1 && m.encryptionAlgorithm == info.encryptionAlgorithm
    requires info.encryptionAlgorithm == 1 ==>
               && m.encryptionKeyID == info.rootKeyId
               && CP.RootKey(CP.RootsAfter(roots, m), info.rootKeyId) == info.rootKeyValue
    ensures CP.Wrap(c, roots, m) == Returned(Some(OnWire(c, info, messageType, body)))
  {
    hide CP.Body, CP.Wrap, CP.RootsAfter, CP.RootKey, Narrow, Crypted, CP.Plain, CP.Encrypted, EncryptedFrame,
      PlainFrame, Cipher.Serves;
    Literals();
    if info.encryptionAlgorithm == 1 {
      WrapsEncrypted(c, info, roots, m, body);
      EncryptedIs(m, messageType, info.rootKeyId.value, c.encrypt(body, info.rootKeyValue.value).value);
    } else {
      Frames.PlainWrap(c, roots, m, body);
      PlainIs(m, messageType, body);
    }
  }

  lemma WrapsEncrypted(c: Cipher, info: Client.AccessInfo, roots: map<string, Octets>, m: Message, body: Octets)
    requires Client.StartAllowed(info) && info.encryptionAlgorithm == 1 && CP.Body(m) == Returned(body)
    requires m.encryptionAlgorithm == 1 && m.encryptionKeyID == info.rootKeyId && c.Serves(info.rootKeyValue.value)
    requires CP.RootKey(CP.RootsAfter(roots, m), info.rootKeyId) == info.rootKeyValue
    ensures c.encrypt(body, info.rootKeyValue.value).Some?
    ensures CP.Wrap(c, roots, m) ==
            Returned(Some(CP.Encrypted(m, info.rootKeyId.value, c.encrypt(body, info.rootKeyValue.value).value)))
  {
    hide CP.Body, CP.RootsAfter, CP.RootKey, CP.Encrypted;
  }

  lemma PlainIs(m: Message, t: bv8, body: Octets)
    requires m.requestID == 120 && m.status == 0 && m.version == 1 && m.encryptionAlgorithm == 0
    requires Narrow(m.messageType) == t
    ensures CP.Plain(m, body) == PlainFrame(t, body)
  {
    hide Narrow, Frame, Header, PlainFrame;
    PlainBytes(m.messageType, t, body);
  }

  lemma EncryptedIs(m: Message, t: bv8, keyID: Octets, e: Octets)
    requires m.requestID == 120 && m.status == 0 && m.version == 1 && m.encryptionAlgorithm == 1
    requires Narrow(m.messageType) == t && |keyID| == 16
    ensures CP.Encrypted(m, keyID, e) == EncryptedFrame(t, keyID, e)
  {
    hide Narrow, Frame, Header, EncryptedFrame;
    EncryptedBytes(m.messageType, t, keyID, e);
  }

  /** The server's frames. */
  lemma ServerOnWire(c: Cipher, db: SP.Database, info: Client.AccessInfo, r: Message, body: Octets, messageType: bv8)
    requires Client.StartAllowed(info) && SharesKey(c, db, info) && Frames.Answerable(r) && r.requestID == 120
    requires messageType == (if r.messageType == 82 then 82 else 84)
    requires r.encryptionAlgorithm == info.encryptionAlgorithm
    requires info.encryptionAlgorithm == 1 ==> r.encryptionKeyID == info.rootKeyId
    ensures SP.Wrap(c, db.rootKeys, r, body) == Returned(OnWire(c, info, messageType, body))
  {
    hide Narrow, Header, Crypted, SP.Wrap, SP.Sealing, EncryptedFrame, PlainFrame, Cipher.Serves;
    Literals();
    if info.encryptionAlgorithm == 1 {
      ServerEncrypts(c, db, info, r, body);
      SealedEncrypted(r, messageType, info.rootKeyId.value, c.encrypt(body, info.rootKeyValue.value).value);
    } else {
      ServerSendsPlain(c, db, r, body);
      SealedPlain(r, messageType, body);
    }
  }

  lemma ServerEncrypts(c: Cipher, db: SP.Database, info: Client.AccessInfo, r: Message, body: Octets)
    requires Client.StartAllowed(info) && SharesKey(c, db, info) && info.encryptionAlgorithm == 1 && r.version == 1
    requires r.encryptionAlgorithm == 1 && r.encryptionKeyID == info.rootKeyId
    ensures
      var e := c.encrypt(body, info.rootKeyValue.value);
      && e.Some?
      && SP.Wrap(c, db.rootKeys, r, body) ==
         Returned(SP.Sealing(r, Header(1, 1, |e.value|, info.rootKeyId.value) + e.value))
  {
    hide Header, Crypted, SP.Sealing, SP.StatusFrame;
  }

  lemma ServerSendsPlain(c: Cipher, db: SP.Database, r: Message, body: Octets)
    requires r.encryptionAlgorithm == 0 && r.version == 1
    ensures SP.Wrap(c, db.rootKeys, r, body) == Returned(SP.Sealing(r, Header(1, 0, |body|, []) + body))
  {
    hide Header, Crypted, SP.Sealing, SP.StatusFrame;
  }

  lemma SealedPlain(r: Message, t: bv8, body: Octets)
    requires r.requestID == 120 && r.status == 0 && Narrow(r.messageType) == t
    ensures SP.Sealing(r, Header(1, 0, |body|, []) + body) == PlainFrame(t, body)
  {
    hide Narrow, Frame, Header, SP.Sealing, PlainFrame;
    SP.SealingIsFrame(r, Header(1, 0, |body|, []) + body);
    PlainBytes(r.messageType, t, body);
  }

  lemma SealedEncrypted(r: Message, t: bv8, keyID: Octets, e: Octets)
    requires r.requestID == 120 && r.status == 0 && Narrow(r.messageType) == t && |keyID| == 16
    ensures SP.Sealing(r, Header(1, 1, |e|, keyID) + e) == EncryptedFrame(t, keyID, e)
  {
    hide Narrow, Frame, Header, SP.Sealing, EncryptedFrame;
    SP.SealingIsFrame(r, Header(1, 1, |e|, keyID) + e);
    EncryptedBytes(r.messageType, t, keyID, e);
  }

  // ----- what the four frames carry

  function Name(info: Client.AccessInfo): Octets
    requires Client.StartAllowed(info)
  {
    [Narrow(|info.deviceID.value|)] + info.deviceID.value
  }

  /** What both sides authenticate: name, client nonce, salt, count with the low byte first, server nonce. */
  function Record(info: Client.AccessInfo, clientNonce: Bytes32, salt: Bytes32, count: int,
                  serverNonce: Bytes32): Octets
    requires Client.StartAllowed(info)
  {
    info.deviceID.value + clientNonce + salt + [Narrow(count), Narrow(count / 256)] + serverNonce
  }

  function Request(c: Cipher, info: Client.AccessInfo, clientNonce: Bytes32): Octets
    requires Client.StartAllowed(info)
  {
    OnWire(c, info, 81, Name(info) + clientNonce)
  }

  function Challenge(c: Cipher, info: Client.AccessInfo, salt: Bytes32, count: int, serverNonce: Bytes32): Octets
    requires Client.StartAllowed(info)
  {
    OnWire(c, info, 82, Name(info) + salt + [Narrow(count / 256), Narrow(count), 0, 0] + serverNonce)
  }

  /** The key, masked with the HMAC of the record under its hash. */
  function ClientProof(p: Primitives, c: Cipher, info: Client.AccessInfo, key: Bytes32, record: Octets): Octets
    requires Client.StartAllowed(info)
  {
    OnWire(c, info, 83, Name(info) + XorBytes(key, p.hmac(p.sha256(key), record)))
  }

  /** The HMAC of the record under the key, which is the session key. */
  function ServerProof(p: Primitives, c: Cipher, info: Client.AccessInfo, key: Bytes32, record: Octets): Octets
    requires Client.StartAllowed(info)
  {
    OnWire(c, info, 84, Name(info) + p.hmac(key, record))
  }

  lemma RecordIs(info: Client.AccessInfo, clientNonce: Bytes32, salt: Bytes32, count: int, serverNonce: Bytes32)
    requires Client.StartAllowed(info)
    ensures H.RunInfo(info, clientNonce, salt, count, serverNonce) ==
            Record(info, clientNonce, salt, count, serverNonce)
  {
    hide Narrow, ToLe;
    H.LowBytes(count);
  }

  lemma Sharing(p: Primitives, c: Cipher, db: SP.Database, info: Client.AccessInfo, roots: map<string, Octets>,
                assists: Client.Assists, salt: Bytes32, count: int, clientNonce: Bytes32)
    requires Client.StartAllowed(info) && H.Enrolled(p, c, db, info, salt, count)
    requires H.Started(c, db, info, roots, assists, clientNonce)
    ensures SharesKey(c, db, info) && count >= 0
    ensures info.encryptionAlgorithm == 1 ==> CP.RootKey(roots, info.rootKeyId) == info.rootKeyValue
  {
    hide Hex, Crypted, CP.RootKey, Cipher.Serves;
  }

  lemma RequestBytes(p: Primitives, c: Cipher, db: SP.Database, info: Client.AccessInfo, roots: map<string, Octets>,
                     clientNonce: Bytes32)
    requires Client.StartAllowed(info) && SharesKey(c, db, info)
    ensures CP.Wrap(c, roots, Client.StartMessage(info, clientNonce)) == Returned(Some(Request(c, info, clientNonce)))
  {
    hide OnWire, CP.Wrap, CP.RootKey, CP.RootsAfter, SharesKey, Narrow;
    var m := Client.StartMessage(info, clientNonce);
    assert clientNonce[..32] == clientNonce;
    if info.encryptionAlgorithm == 1 {
      H.StartRegisters(info, roots, clientNonce);
    }
    ClientOnWire(c, db, info, roots, m, Name(info) + clientNonce, 81);
  }

  lemma ChallengeBytes(c: Cipher, db: SP.Database, info: Client.AccessInfo, r: Message, salt: Bytes32, count: int,
                       serverNonce: Bytes32)
    requires Client.StartAllowed(info) && SharesKey(c, db, info) && H.ChallengeFor(info, r) && count >= 0
    ensures SP.Wrap(c, db.rootKeys, r, ChallengeBody(info.deviceID.value, salt, count, serverNonce)) ==
            Returned(Challenge(c, info, salt, count, serverNonce))
  {
    hide OnWire, SP.Wrap, SharesKey, Narrow, ToBe, BigEndianShort;
    ShortsAgree(count);
    ToBeTwo(count);
    var body := ChallengeBody(info.deviceID.value, salt, count, serverNonce);
    assert body == Name(info) + salt + [Narrow(count / 256), Narrow(count), 0, 0] + serverNonce;
    ServerOnWire(c, db, info, r, body, 82);
  }

  lemma ProofBytes(p: Primitives, c: Cipher, db: SP.Database, info: Client.AccessInfo, roots: map<string, Octets>,
                   m: Message, key: Bytes32, record: Octets)
    requires Client.StartAllowed(info) && SharesKey(c, db, info)
    requires info.encryptionAlgorithm == 1 ==> CP.RootKey(roots, info.rootKeyId) == info.rootKeyValue
    requires H.ProofFor(info, m, Client.ProofOf(p, key, record))
    ensures CP.Wrap(c, roots, m) == Returned(Some(ClientProof(p, c, info, key, record)))
  {
    hide OnWire, CP.Wrap, CP.RootKey, SharesKey, Narrow, XorBytes;
    var proof: Bytes32 := XorBytes(key, p.hmac(p.sha256(key), record));
    assert proof[..32] == proof;
    ClientOnWire(c, db, info, roots, m, Name(info) + proof, 83);
  }

  lemma ServerProofBytes(p: Primitives, c: Cipher, db: SP.Database, info: Client.AccessInfo, r: Message, key: Bytes32,
                         record: Octets)
    requires Client.StartAllowed(info) && SharesKey(c, db, info)
    requires Frames.Answerable(r) && r.messageType == SERVER_PROOF && r.requestID == 120
    requires r.encryptionAlgorithm == info.encryptionAlgorithm
    requires info.encryptionAlgorithm == ENCRYPTION_ALGORITHM_AES ==> r.encryptionKeyID == info.rootKeyId
    ensures SP.Wrap(c, db.rootKeys, r, ProofBody(info.deviceID.value, p.hmac(key, record))) ==
            Returned(ServerProof(p, c, info, key, record))
  {
    hide OnWire, SP.Wrap, SharesKey, Narrow;
    ServerOnWire(c, db, info, r, Name(info) + p.hmac(key, record), 84);
  }

  /** The session id: the first halves of the two nonces, added. */
  function SessionId(clientNonce: Bytes32, serverNonce: Bytes32): Octets {
    XorBytes(clientNonce[..16], serverNonce[..16])
  }

  /** Each side's steps on these frames, and the session that both hold in the end. */
  ghost predicate Exchanged(p: Primitives, c: Cipher, db: SP.Database, info: Client.AccessInfo,
                            roots: map<string, Octets>, assists: Client.Assists, stored: map<string, Octets>,
                            salt: Bytes32, count: int, clientNonce: Bytes32, serverNonce: Bytes32, unused: Bytes32)
    requires Client.StartAllowed(info)
  {
    var id, key := info.deviceID.value, p.pbkdf2(info.quantumKey.value, salt, count);
    var record, sessionId := Record(info, clientNonce, salt, count, serverNonce), SessionId(clientNonce, serverNonce);
    var session := Session(Hex(id), Hex(sessionId), p.hmac(key, record));
    var after := CP.RootsAfter(roots, Client.StartMessage(info, clientNonce));
    var s0 := Server.Step(p, c, db, stored, Request(c, info, clientNonce), serverNonce);
    var c0 := Client.Step(p, c, after, Client.Restarted(assists, info, clientNonce),
                          Challenge(c, info, salt, count, serverNonce));
    var s1 := Server.Step(p, c, db, s0.pending, ClientProof(p, c, info, key, record), unused);
    var c1 := Client.Step(p, c, after, c0.pending, ServerProof(p, c, info, key, record));
    && CP.Wrap(c, roots, Client.StartMessage(info, clientNonce)) == Returned(Some(Request(c, info, clientNonce)))
    && s0.reply == Returned(Server.Reply(Challenge(c, info, salt, count, serverNonce), Some(82), None, None))
    && c0.answer == Returned(Client.Send(Some(ClientProof(p, c, info, key, record))))
    && s1.reply ==
       Returned(Server.Reply(ServerProof(p, c, info, key, record), Some(84), Some(sessionId), Some(session)))
    && c1.answer == Returned(Client.Checked(Some(session)))
    && Client.Collected(c1.pending, id).0 ==
       Returned(Some(Client.ClientSession(id, sessionId, p.hmac(key, record))))
  }

  /** For every enrolled device and count that fits its field, in the clear or under AES. */
  lemma ExchangeOnWire(p: Primitives, c: Cipher, db: SP.Database, info: Client.AccessInfo, roots: map<string, Octets>,
                       assists: Client.Assists, stored: map<string, Octets>, salt: Bytes32, count: int,
                       clientNonce: Bytes32, serverNonce: Bytes32, unused: Bytes32)
    requires Client.StartAllowed(info) && H.Enrolled(p, c, db, info, salt, count) && 0 < count < 65536
    ensures Exchanged(p, c, db, info, roots, assists, stored, salt, count, clientNonce, serverNonce, unused)
  {
    hide Hex, H.Enrolled, H.Started, H.RunInfo, H.RunSession, H.Matches, H.SameHash, H.Granted, H.ChallengeFor,
      H.ProofFor, CP.Wrap, SP.Wrap, CP.RootsAfter, Client.StartMessage, Client.Restarted, Server.Step, Client.Step,
      Request, Challenge, ClientProof, ServerProof, Record, SessionId, SharesKey, ChallengeBody, ProofBody,
      Client.ProofOf, Frames.Answerable;
    var id, d, key := info.deviceID.value, Hex(info.deviceID.value), p.pbkdf2(info.quantumKey.value, salt, count);
    var record := Record(info, clientNonce, salt, count, serverNonce);
    var after, started := CP.RootsAfter(roots, Client.StartMessage(info, clientNonce)),
      Client.Restarted(assists, info, clientNonce);
    RecordIs(info, clientNonce, salt, count, serverNonce);
    H.StartedAfter(p, c, db, info, roots, assists, salt, count, clientNonce);
    Sharing(p, c, db, info, after, started, salt, count, clientNonce);
    assert H.WireKey(p, info, salt, count) == key;
    // request and challenge
    var request, r := H.ChallengeSent(p, c, db, info, roots, stored, salt, count, clientNonce, serverNonce);
    RequestBytes(p, c, db, info, roots, clientNonce);
    ChallengeBytes(c, db, info, r, salt, count, serverNonce);
    RequestRead(p, c, db, info, roots, stored, salt, count, clientNonce, serverNonce);
    // the client's proof
    var f, m, g := H.ProofSent(p, c, db, info, after, started, r, salt, count, clientNonce, serverNonce);
    ProofBytes(p, c, db, info, after, m, key, record);
    // the server's proof
    H.StartedEntry(c, db, info, after, started, clientNonce);
    SecondHalf(p, c, db, info, after, started, stored, m, salt, count, clientNonce, serverNonce, unused);
  }

  lemma RequestRead(p: Primitives, c: Cipher, db: SP.Database, info: Client.AccessInfo, roots: map<string, Octets>,
                    stored: map<string, Octets>, salt: Bytes32, count: int, clientNonce: Bytes32, serverNonce: Bytes32)
    requires Client.StartAllowed(info) && H.Enrolled(p, c, db, info, salt, count) && SharesKey(c, db, info)
    ensures
      var s := Server.Step(p, c, db, stored, Request(c, info, clientNonce), serverNonce);
      s.reply.Returned? ==> s.reply.value.(message := []) == Server.Reply([], Some(82), None, None)
  {
    hide Hex, H.Enrolled, CP.Wrap, SP.Unwrap, SharesKey, Request, Server.Step, Frames.Received, Client.StartMessage,
      Frames.Sendable, Frames.SharedRootKey, Frames.RequestFits;
    var m := Client.StartMessage(info, clientNonce);
    H.StartShared(p, c, db, info, roots, salt, count, clientNonce);
    Frames.ServerReadsClient(c, roots, db.rootKeys, m);
    RequestBytes(p, c, db, info, roots, clientNonce);
    H.ReceivedStart(info, clientNonce);
    var e := Runs.Event(Request(c, info, clientNonce), serverNonce);
    if Server.Step(p, c, db, stored, e.frame, e.nonce).reply.Returned? {
      Runs.ReplyFields(p, c, db, stored, e);
    }
  }

  lemma SecondHalf(p: Primitives, c: Cipher, db: SP.Database, info: Client.AccessInfo, after: map<string, Octets>,
                   started: Client.Assists, stored: map<string, Octets>, m: Message, salt: Bytes32, count: int,
                   clientNonce: Bytes32, serverNonce: Bytes32, unused: Bytes32)
    requires Client.StartAllowed(info) && H.Enrolled(p, c, db, info, salt, count) && 0 < count < 65536
    requires H.Started(c, db, info, after, started, clientNonce) && SharesKey(c, db, info)
    requires Hex(info.deviceID.value) in started
    requires
      var key, run := H.WireKey(p, info, salt, count), H.RunInfo(info, clientNonce, salt, count, serverNonce);
      && H.ProofFor(info, m, Client.ProofOf(p, key, run))
      && CP.Wrap(c, after, m) == Returned(Some(ClientProof(p, c, info, key, run)))
    ensures
      var id, d, key := info.deviceID.value, Hex(info.deviceID.value), H.WireKey(p, info, salt, count);
      var run, sessionId := H.RunInfo(info, clientNonce, salt, count, serverNonce), SessionId(clientNonce, serverNonce);
      var session := Session(d, Hex(sessionId), p.hmac(key, run));
      var proven := started[d := started[d].(session := Some(H.RunSession(p, info, clientNonce, salt, count,
                                                                          serverNonce)))];
      var s1 := Server.Step(p, c, db, stored[d := run], ClientProof(p, c, info, key, run), unused);
      var c1 := Client.Step(p, c, after, proven, ServerProof(p, c, info, key, run));
      && s1.reply == Returned(Server.Reply(ServerProof(p, c, info, key, run), Some(84), Some(sessionId), Some(session)))
      && c1.answer == Returned(Client.Checked(Some(session)))
      && Client.Collected(c1.pending, id).0 ==
         Returned(Some(Client.ClientSession(id, sessionId, p.hmac(key, run))))
  {
    hide Hex, H.Enrolled, H.Started, H.RunInfo, H.Matches, H.SameHash, H.Granted, H.ProofFor, CP.Wrap, SP.Wrap,
      Server.Step, Client.Step, ClientProof, ServerProof, SharesKey, ProofBody, Client.ProofOf, Frames.Answerable,
      SessionId, H.RunSession;
    var id, d, key := info.deviceID.value, Hex(info.deviceID.value), H.WireKey(p, info, salt, count);
    var run := H.RunInfo(info, clientNonce, salt, count, serverNonce);
    var s := H.RunSession(p, info, clientNonce, salt, count, serverNonce);
    var proven := started[d := started[d].(session := Some(s))];
    H.CountFits(p, info, salt, count);
    H.SameHashMatches(p, info, clientNonce, salt, count, serverNonce);
    SessionParts(p, info, salt, count, clientNonce, serverNonce);
    H.StartedStays(c, db, info, after, started, clientNonce, s);
    var g := ClientProof(p, c, info, key, run);
    var r := H.ProofAccepted(p, c, db, info, after, started, stored[d := run], m, g, salt, count, clientNonce,
                             serverNonce, unused);
    ServerProofBytes(p, c, db, info, r, key, run);
    var f := H.ServerVerified(p, c, db, info, after, proven, r, clientNonce, s, s.sessionKey);
    Runs.ReplyFields(p, c, db, stored[d := run], Runs.Event(g, unused));
    HexInjective(Server.Step(p, c, db, stored[d := run], g, unused).reply.value.sessionId.value, s.sessionID);
  }

  lemma SessionParts(p: Primitives, info: Client.AccessInfo, salt: Bytes32, count: int, clientNonce: Bytes32,
                     serverNonce: Bytes32)
    requires Client.StartAllowed(info)
    ensures H.RunSession(p, info, clientNonce, salt, count, serverNonce) ==
            Client.ClientSession(info.deviceID.value, SessionId(clientNonce, serverNonce),
                                 p.hmac(H.WireKey(p, info, salt, count),
                                        H.RunInfo(info, clientNonce, salt, count, serverNonce)))
  {
    hide XorBytes, H.RunInfo, H.WireKey;
    assert clientNonce[..32] == clientNonce && serverNonce[..32] == serverNonce;
    H.XorPrefix(clientNonce, serverNonce, 16);
  }
}
