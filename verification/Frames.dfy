/** The two codecs against each other: what one side builds is what the other side reads, and a damaged
    frame is never accepted. */
module Frames {
  import opened Bytes
  import opened JavaBytes
  import opened PassCryp
  import opened Crc32
  import opened Messages
  import Client = ClientPackets
  import Server = ServerPackets

  // ----- client to server

  /** A request or proof, under any algorithm byte. */
  predicate Complete(m: Message) {
    && m.messageType in {ACCESS_AUTH_REQ, CLIENT_PROOF}
    && 0 <= m.requestID < 65536 && m.status == SUCCESS && m.version == 1 && -128 <= m.encryptionAlgorithm < 128
    && m.deviceID.Some? && Tail(m).Some? && |Tail(m).value| >= 32
  }

  /** A message that the client hands to wrapAuthMessage in a run of the protocol. */
  predicate Sendable(m: Message) {
    Complete(m) && m.encryptionAlgorithm in {ENCRYPTION_ALGORITHM_DEFAULT, ENCRYPTION_ALGORITHM_AES}
  }

  function Tail(m: Message): Option<Octets> {
    if m.messageType == ACCESS_AUTH_REQ then m.clientNonce else m.clientProof
  }

  /** Both sides hold the root key that an encrypted message names, and the cipher works under it. */
  ghost predicate SharedRootKey(c: Cipher, roots: map<string, Octets>, rootKeys: map<Octets, Octets>, m: Message) {
    m.encryptionAlgorithm == ENCRYPTION_ALGORITHM_AES ==>
      && m.encryptionKeyID.Some? && |m.encryptionKeyID.value| == 16
      && (m.messageType == ACCESS_AUTH_REQ ==> m.rootKeyValue.Some?)
      && m.encryptionKeyID.value in rootKeys
      && var key := Crypted(rootKeys[m.encryptionKeyID.value]);
         Client.RootKey(Client.RootsAfter(roots, m), m.encryptionKeyID) == Some(key) && c.Serves(key)
  }

  /** The data length field is a signed byte; this is when it can hold the length. */
  predicate RequestFits(m: Message)
    requires m.deviceID.Some?
  {
    |m.deviceID.value| <= if m.encryptionAlgorithm == ENCRYPTION_ALGORITHM_AES then 62 else 90
  }

  /** What the server knows after reading `m`: exactly what was sent. */
  function Received(m: Message): Message
    requires m.deviceID.Some? && Tail(m).Some? && |Tail(m).value| >= 32
  {
    Carried(if m.encryptionAlgorithm == ENCRYPTION_ALGORITHM_AES then Typed(m).(encryptionKeyID := m.encryptionKeyID)
            else Typed(m), m)
  }

  /** `r` with what the body of `m` carries. */
  function Carried(r: Message, m: Message): Message
    requires m.deviceID.Some? && Tail(m).Some? && |Tail(m).value| >= 32
  {
    var tail := Some(Tail(m).value[..32]);
    (if m.messageType == ACCESS_AUTH_REQ then r.(clientNonce := tail) else r.(clientProof := tail))
    .(encryptionAlgorithm := m.encryptionAlgorithm, deviceIDLength := |m.deviceID.value|, deviceID := m.deviceID,
      version := 1, status := SUCCESS)
  }

  function Typed(m: Message): Message {
    Blank().(status := FAILURE, messageType := m.messageType, requestID := m.requestID)
  }

  /** For every sendable message and both modes: the server reads exactly what the client sent, if the
      length fits; otherwise it answers with a failure. Device ids of 5 to 25 bytes always fit. */
  lemma ServerReadsClient(c: Cipher, roots: map<string, Octets>, rootKeys: map<Octets, Octets>, m: Message)
    requires Sendable(m) && SharedRootKey(c, roots, rootKeys, m)
    ensures
      var w := Client.Wrap(c, roots, m);
      && w.Returned? && w.value.Some?
      && Server.Unwrap(c, rootKeys, w.value.value) == Returned(if RequestFits(m) then Received(m) else Typed(m))
  {
    hide Client.Wrap, Server.Unwrap, Received, Typed;
    if m.encryptionAlgorithm == ENCRYPTION_ALGORITHM_AES {
      ServerReadsClientEncrypted(c, roots, rootKeys, m);
    } else {
      ServerReadsClientPlain(c, roots, rootKeys, m);
    }
  }

  lemma ServerReadsClientPlain(c: Cipher, roots: map<string, Octets>, rootKeys: map<Octets, Octets>, m: Message)
    requires Sendable(m) && m.encryptionAlgorithm == ENCRYPTION_ALGORITHM_DEFAULT
    ensures
      var w := Client.Wrap(c, roots, m);
      && w.Returned? && w.value.Some?
      && Server.Unwrap(c, rootKeys, w.value.value) == Returned(if RequestFits(m) then Received(m) else Typed(m))
  {
    hide Client.Plain, Narrow, Server.Unwrap, Received, Typed, RequestFits;
    ServerReadsOtherModes(c, rootKeys, m);
  }

  /** The server reads every algorithm byte but 1 as plain text. */
  lemma ServerReadsOtherModes(c: Cipher, rootKeys: map<Octets, Octets>, m: Message)
    requires Complete(m) && m.encryptionAlgorithm != ENCRYPTION_ALGORITHM_AES
    ensures Client.Body(m).Returned?
    ensures Server.Unwrap(c, rootKeys, Client.Plain(m, Client.Body(m).value)) ==
            Returned(if RequestFits(m) then Received(m) else Typed(m))
  {
    hide Frame, Header, Narrow, Server.Unwrap, Server.UnwrapBody, Server.UnwrapData, Blank, Carried;
    var body := Client.Body(m).value;
    ServerReadsFrame(c, rootKeys, m, m.encryptionAlgorithm, |body|, [], body);
    if RequestFits(m) {
      ServerReadsPlain(c, rootKeys, m, body);
      ServerReadsBody(m, Typed(m));
    }
  }

  lemma ServerReadsClientEncrypted(c: Cipher, roots: map<string, Octets>, rootKeys: map<Octets, Octets>, m: Message)
    requires Sendable(m) && m.encryptionAlgorithm == ENCRYPTION_ALGORITHM_AES && SharedRootKey(c, roots, rootKeys, m)
    ensures
      var w := Client.Wrap(c, roots, m);
      && w.Returned? && w.value.Some?
      && Server.Unwrap(c, rootKeys, w.value.value) == Returned(if RequestFits(m) then Received(m) else Typed(m))
  {
    hide Crypted, Client.Encrypted, Server.Unwrap, Client.Wrap, Client.RootKey, Client.RootsAfter, Client.Body,
      Received, Typed;
    var e := ClientCiphertext(c, roots, rootKeys, m);
    ServerReadsCiphertext(c, rootKeys, m, e);
  }

  lemma ServerReadsCiphertext(c: Cipher, rootKeys: map<Octets, Octets>, m: Message, e: Octets)
    requires Sendable(m) && m.encryptionAlgorithm == ENCRYPTION_ALGORITHM_AES
    requires m.encryptionKeyID.Some? && |m.encryptionKeyID.value| == 16 && m.encryptionKeyID.value in rootKeys
    requires Client.Body(m).Returned? && |e| == 16 * ((33 + |m.deviceID.value|) / 16 + 1)
    requires c.decrypt(e, Crypted(rootKeys[m.encryptionKeyID.value])) == Some(Client.Body(m).value)
    ensures Server.Unwrap(c, rootKeys, Client.Encrypted(m, m.encryptionKeyID.value, e)) ==
            Returned(if RequestFits(m) then Received(m) else Typed(m))
  {
    hide Crypted, Frame, Header, Server.Unwrap, Server.UnwrapBody, Server.UnwrapData, Blank, Carried, Client.Body;
    var k, body := m.encryptionKeyID.value, Client.Body(m).value;
    EncryptedLength(|m.deviceID.value|);
    ServerReadsFrame(c, rootKeys, m, 1, |e|, k, e);
    if RequestFits(m) {
      ServerReadsEncrypted(c, rootKeys, m, k, body, e);
      ServerReadsBody(m, Typed(m).(encryptionKeyID := Some(k)));
    }
  }

  lemma EncryptedWrap(c: Cipher, roots: map<string, Octets>, m: Message, f: Octets) returns (e: Octets)
    requires Client.Wrap(c, roots, m) == Returned(Some(f)) && m.encryptionAlgorithm == ENCRYPTION_ALGORITHM_AES
    ensures m.encryptionKeyID.Some? && f == Client.Encrypted(m, m.encryptionKeyID.value, e)
  {
    hide Client.Body, Client.Encrypted, Client.RootsAfter, Hex;
    e := c.encrypt(Client.Body(m).value, Client.RootKey(Client.RootsAfter(roots, m), m.encryptionKeyID).value).value;
  }

  /** A frame that names a root key the server does not have is read as a failure. */
  lemma ServerLacksKey(c: Cipher, rootKeys: map<Octets, Octets>, m: Message, e: Octets)
    requires Complete(m) && m.encryptionAlgorithm == ENCRYPTION_ALGORITHM_AES
    requires m.encryptionKeyID.Some? && |m.encryptionKeyID.value| == 16 && m.encryptionKeyID.value !in rootKeys
    ensures Server.Unwrap(c, rootKeys, Client.Encrypted(m, m.encryptionKeyID.value, e)) == Returned(Typed(m))
  {
    hide CrcMatches, Narrow, Signed, ToBe, BeValue, Frame, Header, Server.Unwrap, Typed;
    var k := m.encryptionKeyID.value;
    var data := Header(m.version, 1, |e|, k) + e;
    var f := Frame(m.messageType, m.requestID, m.status, |data|, data);
    ServerReadsFrame(c, rootKeys, m, 1, |e|, k, e);
    FrameFields(m.messageType, m.requestID, m.status, |data|, data);
    HeaderFields(m.version, 1, |e|, k, e);
    DataSlice(f, data, 1, 1);
    DataSlice(f, data, 4, 20);
    SignedNarrow(1);
  }

  lemma ClientCiphertext(c: Cipher, roots: map<string, Octets>, rootKeys: map<Octets, Octets>, m: Message)
    returns (e: Octets)
    requires Sendable(m) && m.encryptionAlgorithm == ENCRYPTION_ALGORITHM_AES && SharedRootKey(c, roots, rootKeys, m)
    ensures Client.Wrap(c, roots, m) == Returned(Some(Client.Encrypted(m, m.encryptionKeyID.value, e)))
    ensures Client.Body(m).Returned? && |e| == 16 * ((33 + |m.deviceID.value|) / 16 + 1)
    ensures c.decrypt(e, Crypted(rootKeys[m.encryptionKeyID.value])) == Some(Client.Body(m).value)
  {
    hide Crypted, Client.Encrypted, Narrow, Client.RootKey, Client.RootsAfter, Client.Body;
    ClientBody(m);
    e := c.encrypt(Client.Body(m).value, Crypted(rootKeys[m.encryptionKeyID.value])).value;
  }

  lemma ClientBody(m: Message)
    requires Sendable(m)
    requires m.encryptionAlgorithm == ENCRYPTION_ALGORITHM_AES && m.messageType == ACCESS_AUTH_REQ ==>
               m.encryptionKeyID.Some? && m.rootKeyValue.Some?
    ensures Client.Body(m).Returned? && |Client.Body(m).value| == 33 + |m.deviceID.value|
  {}

  lemma EncryptedLength(n: nat)
    ensures 20 + 16 * ((33 + n) / 16 + 1) <= 127 <==> n <= 62
  {}

  /** The outer checks. */
  lemma ServerReadsFrame(c: Cipher, rootKeys: map<Octets, Octets>, m: Message, algorithm: int, length: nat,
                         keyID: Octets, body: Octets)
    requires m.messageType in {ACCESS_AUTH_REQ, CLIENT_PROOF} && 0 <= m.requestID < 65536 && m.status == SUCCESS
    requires m.version == 1
    ensures
      var data := Header(m.version, algorithm, length, keyID) + body;
      var f := Frame(m.messageType, m.requestID, m.status, |data|, data);
      Server.Unwrap(c, rootKeys, f) ==
      if |data| <= 127 then Server.UnwrapData(c, rootKeys, f, Typed(m)) else Returned(Typed(m))
  {
    hide CrcMatches, Narrow, Signed, ToBe, BeValue, Frame, Header, Server.UnwrapData;
    var data := Header(m.version, algorithm, length, keyID) + body;
    var f := Frame(m.messageType, m.requestID, m.status, |data|, data);
    FrameFields(m.messageType, m.requestID, m.status, |data|, data);
    HeaderFields(m.version, algorithm, length, keyID, body);
    DataSlice(f, data, 0, 0);
    SignedNarrow(m.messageType);
    SignedNarrow(m.status);
    SignedNarrow(m.version);
    ShortValue(m.requestID);
    LengthFits(|data|);
  }

  lemma LengthFits(n: nat)
    ensures Signed(Narrow(n)) == n <==> n <= 127
  {
    if n <= 127 {
      SignedNarrow(n);
    }
    NarrowValue(n);
  }

  lemma ServerReadsPlain(c: Cipher, rootKeys: map<Octets, Octets>, m: Message, body: Octets)
    requires |body| < 65536 && -128 <= m.encryptionAlgorithm < 128 && m.encryptionAlgorithm != ENCRYPTION_ALGORITHM_AES
    ensures
      var data := Header(m.version, m.encryptionAlgorithm, |body|, []) + body;
      var f := Frame(m.messageType, m.requestID, m.status, |data|, data);
      Server.UnwrapData(c, rootKeys, f, Typed(m)) == Server.UnwrapBody(Typed(m), m.encryptionAlgorithm, body)
  {
    hide CrcMatches, Narrow, Signed, ToBe, BeValue, Frame, Header, Server.UnwrapBody, Crypted, Typed;
    var data := Header(m.version, m.encryptionAlgorithm, |body|, []) + body;
    var f := Frame(m.messageType, m.requestID, m.status, |data|, data);
    FrameFields(m.messageType, m.requestID, m.status, |data|, data);
    HeaderFields(m.version, m.encryptionAlgorithm, |body|, [], body);
    DataSlice(f, data, 1, 1);
    DataSlice(f, data, 2, 4);
    DataSlice(f, data, 4, |data|);
    SignedNarrow(m.encryptionAlgorithm);
    ShortValue(|body|);
  }

  lemma ServerReadsEncrypted(c: Cipher, rootKeys: map<Octets, Octets>, m: Message, k: Octets, body: Octets, e: Octets)
    requires |k| == 16 && k in rootKeys && |e| < 65536 && c.decrypt(e, Crypted(rootKeys[k])) == Some(body)
    ensures
      var data := Header(m.version, 1, |e|, k) + e;
      var f := Frame(m.messageType, m.requestID, m.status, |data|, data);
      Server.UnwrapData(c, rootKeys, f, Typed(m)) == Server.UnwrapBody(Typed(m).(encryptionKeyID := Some(k)), 1, body)
  {
    hide CrcMatches, Narrow, Signed, ToBe, BeValue, Frame, Header, Server.UnwrapBody, Crypted, Typed;
    var data := Header(m.version, 1, |e|, k) + e;
    var f := Frame(m.messageType, m.requestID, m.status, |data|, data);
    FrameFields(m.messageType, m.requestID, m.status, |data|, data);
    HeaderFields(m.version, 1, |e|, k, e);
    DataSlice(f, data, 1, 1);
    DataSlice(f, data, 2, 4);
    DataSlice(f, data, 4, 20);
    DataSlice(f, data, 20, |data|);
    SignedNarrow(1);
    ShortValue(|e|);
  }

  /** The parts of a body: length byte, name, and what follows. */
  lemma BodyParts(id: Octets, tail: Octets)
    requires |id| <= 127
    ensures
      var body := [Narrow(|id|)] + id + tail;
      && Signed(body[0]) == |id|
      && Subarray(body, 1, 1 + |id|) == id && Subarray(body, 1 + |id|, |body|) == tail
  {
    hide Narrow, Signed;
    SignedNarrow(|id|);
    var body := [Narrow(|id|)] + id + tail;
    assert body[0] == Narrow(|id|);
    assert body[1..1 + |id|] == id && body[1 + |id|..] == tail;
    if id == [] {
      assert Subarray(body, 1, 1) == [];
    }
    if tail == [] {
      assert Subarray(body, 1 + |id|, |body|) == [];
    }
  }

  lemma ServerReadsBody(m: Message, r: Message)
    requires Complete(m) && |m.deviceID.value| <= 127 && r.messageType == m.messageType
    requires Client.Body(m).Returned?
    ensures Server.UnwrapBody(r, m.encryptionAlgorithm, Client.Body(m).value) == Returned(Carried(r, m))
  {
    hide Narrow, Signed, Subarray;
    BodyParts(m.deviceID.value, Tail(m).value[..32]);
  }

  // ----- server to client

  /** A message that the server answers with, under whatever algorithm byte it has read. */
  predicate Headed(m: Message) {
    && m.messageType in {ACCESS_AUTH_RESP, SERVER_PROOF}
    && 0 <= m.requestID < 65536 && m.status == SUCCESS && m.version == 1
    && -128 <= m.encryptionAlgorithm < 128
  }

  predicate Answerable(m: Message) {
    Headed(m) && m.encryptionAlgorithm in {ENCRYPTION_ALGORITHM_DEFAULT, ENCRYPTION_ALGORITHM_AES}
  }

  ghost predicate CommonRootKey(c: Cipher, roots: map<string, Octets>, rootKeys: map<Octets, Octets>, m: Message) {
    m.encryptionAlgorithm == ENCRYPTION_ALGORITHM_AES ==>
      && m.encryptionKeyID.Some? && |m.encryptionKeyID.value| == 16
      && m.encryptionKeyID.value in rootKeys
      && var key := Crypted(rootKeys[m.encryptionKeyID.value]);
         Client.RootKey(roots, m.encryptionKeyID) == Some(key) && c.Serves(key)
  }

  /** When the length field can hold the length of an answer with this body. */
  predicate AnswerFits(m: Message, n: nat) {
    n <= if m.encryptionAlgorithm == ENCRYPTION_ALGORITHM_AES then 95 else 123
  }

  /** The header as the client reads it; it reads the body length in the other byte order. */
  function Heading(m: Message, length: nat): Message {
    Blank().(messageType := m.messageType, requestID := m.requestID, encryptionAlgorithm := m.encryptionAlgorithm,
             messageLength := Client.LeValue(ToBe(length, 2)))
  }

  /** What the client makes of an answer: the body, with the CRC still behind it when it is not encrypted;
      null if the length does not fit. */
  lemma ClientReadsServer(c: Cipher, roots: map<string, Octets>, rootKeys: map<Octets, Octets>, m: Message,
                          body: Octets)
    returns (f: Octets, heading: Message)
    requires Answerable(m) && CommonRootKey(c, roots, rootKeys, m)
    ensures Server.Wrap(c, rootKeys, m, body) == Returned(f)
    ensures |f| >= 9 && heading.messageType == m.messageType
    ensures heading.requestID == m.requestID && heading.encryptionAlgorithm == m.encryptionAlgorithm
    ensures m.encryptionAlgorithm == ENCRYPTION_ALGORITHM_AES ==> heading.encryptionKeyID == m.encryptionKeyID
    ensures Client.Unwrap(c, roots, f) ==
            if !AnswerFits(m, |body|) then Returned(None)
            else if m.encryptionAlgorithm == ENCRYPTION_ALGORITHM_AES
            then Client.Nullable(Client.UnwrapBody(heading, body))
            else Client.Nullable(Client.UnwrapBody(heading, body + f[|f| - 4..]))
  {
    hide Crypted, Client.Unwrap, Client.UnwrapBody, Client.Nullable, Client.RootKey, Server.Sealing, Header, ToBe,
      Client.LeValue;
    if m.encryptionAlgorithm == ENCRYPTION_ALGORITHM_AES {
      var k := m.encryptionKeyID.value;
      var e := c.encrypt(body, Crypted(rootKeys[k])).value;
      f, heading := ClientReadsEncrypted(c, roots, m, k, Crypted(rootKeys[k]), body, e);
    } else {
      f, heading := ClientReadsPlain(c, roots, m, body);
    }
  }

  lemma ClientReadsFrame(c: Cipher, roots: map<string, Octets>, m: Message, length: nat, keyID: Octets, body: Octets)
    requires Headed(m)
    ensures
      var data := Header(m.version, m.encryptionAlgorithm, length, keyID) + body;
      var f := Frame(m.messageType, m.requestID, m.status, |data|, data);
      && f == Server.Sealing(m, data)
      && Client.Unwrap(c, roots, f) == if |data| <= 127 then Client.UnwrapData(c, roots, f) else Returned(None)
  {
    hide CrcMatches, Narrow, Signed, ToBe, BeValue, Frame, Header, Client.UnwrapData, Server.Sealing;
    var data := Header(m.version, m.encryptionAlgorithm, length, keyID) + body;
    var f := Frame(m.messageType, m.requestID, m.status, |data|, data);
    Server.SealingIsFrame(m, data);
    FrameFields(m.messageType, m.requestID, m.status, |data|, data);
    HeaderFields(m.version, m.encryptionAlgorithm, length, keyID, body);
    DataSlice(f, data, 0, 0);
    SignedNarrow(m.messageType);
    SignedNarrow(m.status);
    SignedNarrow(m.version);
    LengthFits(|data|);
  }

  /** The server answers a request under any other algorithm byte in the clear; the client takes nothing from
      that answer. */
  lemma ClientRefusesOtherModes(c: Cipher, roots: map<string, Octets>, rootKeys: map<Octets, Octets>, m: Message,
                                body: Octets) returns (f: Octets)
    requires Headed(m) && m.encryptionAlgorithm !in {ENCRYPTION_ALGORITHM_DEFAULT, ENCRYPTION_ALGORITHM_AES}
    ensures Server.Wrap(c, rootKeys, m, body) == Returned(f) && Client.Unwrap(c, roots, f) == Returned(None)
  {
    hide CrcMatches, Narrow, Signed, ToBe, BeValue, Frame, Header, Client.UnwrapBody, Client.Unwrap, Client.Nullable,
      Server.Sealing, Client.LeValue, Blank, Client.RootKey;
    var data := Header(m.version, m.encryptionAlgorithm, |body|, []) + body;
    f := Server.Sealing(m, data);
    ClientReadsFrame(c, roots, m, |body|, [], body);
    FrameFields(m.messageType, m.requestID, m.status, |data|, data);
    HeaderFields(m.version, m.encryptionAlgorithm, |body|, [], body);
    DataSlice(f, data, 1, 1);
    SignedNarrow(m.encryptionAlgorithm);
  }

  lemma ClientReadsPlain(c: Cipher, roots: map<string, Octets>, m: Message, body: Octets)
    returns (f: Octets, heading: Message)
    requires Answerable(m) && m.encryptionAlgorithm == ENCRYPTION_ALGORITHM_DEFAULT
    ensures f == Server.Sealing(m, Header(m.version, m.encryptionAlgorithm, |body|, []) + body)
    ensures |f| >= 9 && heading == Heading(m, |body|)
    ensures Client.Unwrap(c, roots, f) ==
            if !AnswerFits(m, |body|) then Returned(None)
            else Client.Nullable(Client.UnwrapBody(heading, body + f[|f| - 4..]))
  {
    hide CrcMatches, Narrow, Signed, ToBe, BeValue, Frame, Header, Client.UnwrapBody, Client.Unwrap, Client.Nullable,
      Server.Sealing, Client.LeValue, Blank;
    var data := Header(m.version, 0, |body|, []) + body;
    f := Frame(m.messageType, m.requestID, m.status, |data|, data);
    heading := Heading(m, |body|);
    ClientReadsFrame(c, roots, m, |body|, [], body);
    FrameFields(m.messageType, m.requestID, m.status, |data|, data);
    HeaderFields(m.version, 0, |body|, [], body);
    DataSlice(f, data, 1, 1);
    DataSlice(f, data, 2, 4);
    DataSlice(f, data, 4, |data|);
    SignedNarrow(0);
    SignedNarrow(m.messageType);
    ShortValue(m.requestID);
    assert Subarray(f, 9, |f|) == f[9..|f| - 4] + f[|f| - 4..] by {
      assert f[9..] == f[9..|f| - 4] + f[|f| - 4..];
    }
  }

  lemma ClientReadsEncrypted(c: Cipher, roots: map<string, Octets>, m: Message, k: Octets, key: Octets, body: Octets,
                             e: Octets)
    returns (f: Octets, heading: Message)
    requires Answerable(m) && m.encryptionAlgorithm == ENCRYPTION_ALGORITHM_AES && m.encryptionKeyID == Some(k)
    requires |k| == 16 && Client.RootKey(roots, Some(k)) == Some(key)
    requires |e| == 16 * (|body| / 16 + 1) && c.decrypt(e, key) == Some(body)
    ensures f == Server.Sealing(m, Header(m.version, m.encryptionAlgorithm, |e|, k) + e)
    ensures |f| >= 9 && heading == Heading(m, |e|).(encryptionKeyID := Some(k))
    ensures Client.Unwrap(c, roots, f) ==
            if !AnswerFits(m, |body|) then Returned(None) else Client.Nullable(Client.UnwrapBody(heading, body))
  {
    hide CrcMatches, Narrow, Signed, ToBe, BeValue, Frame, Header, Client.UnwrapBody, Client.Unwrap, Client.Nullable,
      Server.Sealing, Client.LeValue, Blank, Client.RootKey;
    var data := Header(m.version, 1, |e|, k) + e;
    f := Frame(m.messageType, m.requestID, m.status, |data|, data);
    heading := Heading(m, |e|).(encryptionKeyID := Some(k));
    AnswerLength(|body|);
    ClientReadsFrame(c, roots, m, |e|, k, e);
    FrameFields(m.messageType, m.requestID, m.status, |data|, data);
    HeaderFields(m.version, 1, |e|, k, e);
    DataSlice(f, data, 1, 1);
    DataSlice(f, data, 2, 4);
    DataSlice(f, data, 4, 20);
    DataSlice(f, data, 20, |data|);
    SignedNarrow(1);
    SignedNarrow(m.messageType);
    ShortValue(m.requestID);
  }

  lemma AnswerLength(n: nat)
    ensures 20 + 16 * (n / 16 + 1) <= 127 <==> n <= 95
  {}

  /** The challenge, read back: name, salt, the count modulo 65536, and a nonce followed by whatever `rest` is behind
      it. */
  lemma ChallengeReadBack(h: Message, id: Octets, salt: Octets, iterationCount: int, nonce: Octets, rest: Octets)
    requires h.messageType == ACCESS_AUTH_RESP && |id| <= 127 && |salt| == |nonce| == 32 && iterationCount >= 0
    ensures Client.UnwrapBody(h, ChallengeBody(id, salt, iterationCount, nonce) + rest) ==
            Returned(h.(status := SUCCESS, version := 1, deviceIDLength := |id|, deviceID := Some(id),
                        salt := Some(salt),
                        iterationCount := iterationCount % 65536, serverNonce := Some(nonce + rest)))
  {
    hide Narrow, Signed, BigEndianShort, ToBe, BeValue, ChallengeBody, Subarray;
    ChallengeSlices(id, salt, iterationCount, nonce, rest);
    ShortsAgree(iterationCount);
    ShortValue(iterationCount);
  }

  lemma ChallengeSlices(id: Octets, salt: Octets, iterationCount: int, nonce: Octets, rest: Octets)
    requires |id| <= 127 && |salt| == |nonce| == 32
    ensures
      var n, body := |id|, ChallengeBody(id, salt, iterationCount, nonce) + rest;
      && Signed(body[0]) == n && Subarray(body, 1, 1 + n) == id && Subarray(body, 1 + n, 33 + n) == salt
      && Subarray(body, 33 + n, 35 + n) == BigEndianShort(iterationCount)
      && Subarray(body, 37 + n, |body|) == nonce + rest
  {
    hide Narrow, Signed, BigEndianShort;
    var n, short := |id|, BigEndianShort(iterationCount);
    var body := ChallengeBody(id, salt, iterationCount, nonce) + rest;
    BodyParts(id, salt + short + [0, 0] + nonce + rest);
    assert body == [Narrow(n)] + id + (salt + short + [0, 0] + nonce + rest);
    assert body[1 + n..33 + n] == salt && body[33 + n..35 + n] == short && body[37 + n..] == nonce + rest;
  }

  lemma ProofReadBack(h: Message, id: Octets, proof: Octets, rest: Octets)
    requires h.messageType == SERVER_PROOF && |id| <= 127 && |proof| == 32
    ensures Client.UnwrapBody(h, ProofBody(id, proof) + rest) ==
            Returned(h.(status := SUCCESS, version := 1, deviceIDLength := |id|, deviceID := Some(id),
                        serverProof := Some(proof)))
  {
    hide Narrow, Signed;
    var n := |id|;
    var body := ProofBody(id, proof) + rest;
    BodyParts(id, proof + rest);
    assert body == [Narrow(n)] + id + (proof + rest);
    assert body[1 + n..33 + n] == proof;
  }

  /** Without its root key, or when the cipher fails, the server sends four bytes under the next message type; the
      client takes nothing from them. */
  lemma UnencryptedIgnored(c: Cipher, roots: map<string, Octets>, rootKeys: map<Octets, Octets>, m: Message,
                           body: Octets)
    requires Headed(m) && m.encryptionAlgorithm == ENCRYPTION_ALGORITHM_AES && m.encryptionKeyID.Some?
    requires
      var id := m.encryptionKeyID.value;
      id !in rootKeys || c.encrypt(body, Crypted(rootKeys[id])).None?
    ensures
      var next: bv8 := if m.messageType == 82 then 83 else 85;
      var f := [next] + BigEndianShort(m.requestID) + [101];
      Server.Wrap(c, rootKeys, m, body) == Returned(f) && Client.Unwrap(c, roots, f) == Returned(None)
  {
    hide Crypted, BigEndianShort, Signed, Narrow, CrcMatches, Client.UnwrapData;
    NarrowOfByte(83);
    NarrowOfByte(85);
    NarrowOfByte(101);
    SignedNarrow(83);
    SignedNarrow(85);
    SignedNarrow(101);
  }

  // ----- what is accepted

  /** Only a frame whose CRC is right is read with success. */
  lemma ServerAcceptsSealed(c: Cipher, rootKeys: map<Octets, Octets>, f: Octets)
    requires Server.Unwrap(c, rootKeys, f).Returned? && Server.Unwrap(c, rootKeys, f).value.status == SUCCESS
    ensures |f| >= 4 && IsSealed(f)
  {
    hide CrcMatches, IsSealed, Server.UnwrapData;
    if |f| >= 4 {
      CrcMatchesIff(f);
    }
  }

  /** What the client takes for a message is a whole success frame of the server, of version 1. */
  lemma ClientAcceptsSealed(c: Cipher, roots: map<string, Octets>, f: Octets)
    requires Client.Unwrap(c, roots, f).Returned? && Client.Unwrap(c, roots, f).value.Some?
    ensures |f| >= 7 && IsSealed(f) && Signed(f[0]) in {ACCESS_AUTH_RESP, SERVER_PROOF}
    ensures Signed(f[3]) == SUCCESS && Signed(f[4]) == |f| - 9 && Signed(f[5]) == 1
    ensures Signed(f[6]) in {ENCRYPTION_ALGORITHM_DEFAULT, ENCRYPTION_ALGORITHM_AES}
  {
    hide CrcMatches, IsSealed, Signed, Client.UnwrapBody, Client.RootKey, BeValue, Client.LeValue;
    if |f| >= 4 {
      CrcMatchesIff(f);
    }
  }

  /** Damage to an accepted frame inside any 32 consecutive bits, its CRC included, is noticed by the server. */
  lemma ServerNoticesBurst(c: Cipher, rootKeys: map<Octets, Octets>, f: Octets, g: Octets,
                           p: seq<bool>, x: seq<bool>, y: seq<bool>, q: seq<bool>)
    requires Server.Unwrap(c, rootKeys, f).Returned? && Server.Unwrap(c, rootKeys, f).value.status == SUCCESS
    requires |g| == |f| && g != f && Bits(f) == p + x + q && Bits(g) == p + y + q && |x| == |y| <= 32
    ensures Server.Unwrap(c, rootKeys, g).Returned? ==> Server.Unwrap(c, rootKeys, g).value.status != SUCCESS
  {
    hide Server.Unwrap, IsSealed, Bits;
    ServerAcceptsSealed(c, rootKeys, f);
    BurstUnseals(f, g, p, x, y, q);
    if Server.Unwrap(c, rootKeys, g).Returned? && Server.Unwrap(c, rootKeys, g).value.status == SUCCESS {
      ServerAcceptsSealed(c, rootKeys, g);
    }
  }

  /** And by the client, which then returns null or throws. */
  lemma ClientNoticesBurst(c: Cipher, roots: map<string, Octets>, f: Octets, g: Octets,
                           p: seq<bool>, x: seq<bool>, y: seq<bool>, q: seq<bool>)
    requires Client.Unwrap(c, roots, f).Returned? && Client.Unwrap(c, roots, f).value.Some?
    requires |g| == |f| && g != f && Bits(f) == p + x + q && Bits(g) == p + y + q && |x| == |y| <= 32
    ensures Client.Unwrap(c, roots, g).Returned? ==> Client.Unwrap(c, roots, g).value == None
  {
    hide Client.Unwrap, IsSealed, Bits;
    ClientAcceptsSealed(c, roots, f);
    BurstUnseals(f, g, p, x, y, q);
    if Client.Unwrap(c, roots, g).Returned? && Client.Unwrap(c, roots, g).value.Some? {
      ClientAcceptsSealed(c, roots, g);
    }
  }

  /** The converse of the round trip. A frame that the server reads without decryption is byte for byte the
      frame the client builds for what was read, exactly if the algorithm byte is 0 and the body holds a whole
      name and 32 bytes behind it. The server reads every algorithm byte but 1 in this way. */
  lemma AcceptedIsWrapped(c: Cipher, roots: map<string, Octets>, rootKeys: map<Octets, Octets>, f: Octets, m: Message)
    requires Server.Unwrap(c, rootKeys, f) == Returned(m) && m.status == SUCCESS
    requires m.encryptionAlgorithm != ENCRYPTION_ALGORITHM_AES
    ensures m.deviceID.Some? && Tail(m).Some?
    ensures Client.Wrap(c, roots, m) == Returned(Some(f)) <==>
            && m.encryptionAlgorithm == ENCRYPTION_ALGORITHM_DEFAULT
            && m.deviceIDLength == |m.deviceID.value| && |Tail(m).value| == 32
  {
    hide Server.Unwrap, Server.UnwrapBody, Client.Wrap;
    var typed := PlainFields(c, rootKeys, f, m);
    ParsedBody(typed, m, f[9..|f| - 4]);
    if m.encryptionAlgorithm == ENCRYPTION_ALGORITHM_DEFAULT && m.deviceIDLength == |m.deviceID.value| &&
       |Tail(m).value| == 32 {
      WholeIsWrapped(c, roots, rootKeys, f, m, typed);
    }
    if Client.Wrap(c, roots, m) == Returned(Some(f)) {
      WrappedIsWhole(c, roots, f, m, typed);
    }
  }

  lemma ParsedBody(r: Message, m: Message, body: Octets)
    requires Server.UnwrapBody(r, m.encryptionAlgorithm, body) == Returned(m)
    requires m.messageType == r.messageType
    ensures body != [] && m.deviceID == Some(Subarray(body, 1, 1 + m.deviceIDLength))
    ensures m.deviceIDLength == Signed(body[0])
    ensures Tail(m) == Some(Subarray(body, 1 + m.deviceIDLength, |body|))
  {
    hide Signed, Subarray;
  }

  lemma WholeIsWrapped(c: Cipher, roots: map<string, Octets>, rootKeys: map<Octets, Octets>, f: Octets, m: Message,
                       typed: Message)
    requires Server.Unwrap(c, rootKeys, f) == Returned(m) && m.status == SUCCESS && |f| >= 13
    requires m.encryptionAlgorithm == ENCRYPTION_ALGORITHM_DEFAULT && typed.messageType == m.messageType
    requires Server.UnwrapBody(typed, 0, f[9..|f| - 4]) == Returned(m)
    requires m.deviceID.Some? && m.deviceIDLength == |m.deviceID.value| && Tail(m).Some? && |Tail(m).value| == 32
    ensures Client.Wrap(c, roots, m) == Returned(Some(f))
  {
    hide Server.Unwrap, Server.UnwrapBody, Client.Body, Client.Wrap, IsSealed, Frame, Header, Narrow;
    var body := f[9..|f| - 4];
    var again := PlainFields(c, rootKeys, f, m);
    BodyReadBack(typed, m, 0, body);
    ClientBodyIs(m, body);
    ServerAcceptsSealed(c, rootKeys, f);
    FrameReadBack(m, f, 0);
    assert f[9..9] == [];
    PlainWrap(c, roots, m, body);
  }

  lemma WrappedIsWhole(c: Cipher, roots: map<string, Octets>, f: Octets, m: Message, typed: Message)
    requires Client.Wrap(c, roots, m) == Returned(Some(f)) && m.encryptionAlgorithm != ENCRYPTION_ALGORITHM_AES
    requires |f| >= 13 && Signed(f[4]) == |f| - 9 && typed.messageType == m.messageType
    requires Server.UnwrapBody(typed, m.encryptionAlgorithm, f[9..|f| - 4]) == Returned(m)
    ensures m.encryptionAlgorithm == ENCRYPTION_ALGORITHM_DEFAULT
    ensures m.deviceID.Some? && m.deviceIDLength == |m.deviceID.value| && Tail(m).Some? && |Tail(m).value| == 32
  {
    hide Server.UnwrapBody, Signed, Narrow, Frame, Header, Subarray, Client.Wrap;
    var body := WrappedPlain(c, roots, m, f);
    ParsedBody(typed, m, f[9..|f| - 4]);
    PlainParts(m, body);
    ByteAtMost(f[4]);
    BodyParts(m.deviceID.value, Tail(m).value[..32]);
  }

  lemma WrappedPlain(c: Cipher, roots: map<string, Octets>, m: Message, f: Octets) returns (body: Octets)
    requires Client.Wrap(c, roots, m) == Returned(Some(f)) && m.encryptionAlgorithm != ENCRYPTION_ALGORITHM_AES
    ensures m.encryptionAlgorithm == ENCRYPTION_ALGORITHM_DEFAULT && f == Client.Plain(m, body)
    ensures m.deviceID.Some? && Tail(m).Some? && |Tail(m).value| >= 32
    ensures body == [Narrow(|m.deviceID.value|)] + m.deviceID.value + Tail(m).value[..32]
  {
    hide Client.Plain, Narrow;
    body := Client.Body(m).value;
  }

  lemma PlainParts(m: Message, body: Octets)
    ensures
      var f := Client.Plain(m, body);
      |f| == |body| + 13 && f[9..|f| - 4] == body
  {
    hide Narrow, ToBe, Sealed;
    var data := Header(m.version, m.encryptionAlgorithm, |body|, []) + body;
    var f := Client.Plain(m, body);
    FrameFields(m.messageType, m.requestID, m.status, 4 + |body|, data);
    HeaderFields(m.version, m.encryptionAlgorithm, |body|, [], body);
    hide Frame, Header;
    DataSlice(f, data, 4, |data|);
    assert Subarray(f, 9, |f| - 4) == f[9..|f| - 4];
  }

  lemma ByteAtMost(b: bv8)
    ensures Signed(b) <= 127
  {
    ByteRange(b);
  }

  lemma PlainWrap(c: Cipher, roots: map<string, Octets>, m: Message, body: Octets)
    requires Client.Body(m) == Returned(body) && m.encryptionAlgorithm == ENCRYPTION_ALGORITHM_DEFAULT
    ensures Client.Wrap(c, roots, m) == Returned(Some(Client.Plain(m, body)))
  {
    hide Client.Body, Client.Plain;
  }

  lemma PlainFields(c: Cipher, rootKeys: map<Octets, Octets>, f: Octets, m: Message) returns (typed: Message)
    requires Server.Unwrap(c, rootKeys, f) == Returned(m) && m.status == SUCCESS
    requires m.encryptionAlgorithm != ENCRYPTION_ALGORITHM_AES
    ensures |f| >= 13 && Signed(f[0]) == m.messageType && m.messageType in {ACCESS_AUTH_REQ, CLIENT_PROOF}
    ensures BeValue(f[1..3]) == m.requestID && Signed(f[3]) == SUCCESS && Signed(f[4]) == |f| - 9
    ensures Signed(f[5]) == m.version && Signed(f[6]) == m.encryptionAlgorithm && BeValue(f[7..9]) == |f| - 13
    ensures typed.messageType == m.messageType
    ensures Server.UnwrapBody(typed, m.encryptionAlgorithm, f[9..|f| - 4]) == Returned(m)
  {
    hide CrcMatches, Signed, BeValue, Server.UnwrapData;
    typed := Blank().(status := FAILURE, messageType := Signed(f[0]), requestID := BeValue(Subarray(f, 1, 3)));
    assert |f| >= 7 && Server.UnwrapData(c, rootKeys, f, typed) == Returned(m);
    UnwrapDataPlain(c, rootKeys, f, typed, m);
  }

  lemma UnwrapDataPlain(c: Cipher, rootKeys: map<Octets, Octets>, f: Octets, r: Message, m: Message)
    requires |f| >= 7 && Server.UnwrapData(c, rootKeys, f, r) == Returned(m) && m.status == SUCCESS != r.status
    requires m.encryptionAlgorithm != ENCRYPTION_ALGORITHM_AES
    ensures |f| >= 13 && Signed(f[6]) == m.encryptionAlgorithm && BeValue(f[7..9]) == |f| - 13
    ensures Server.UnwrapBody(r, m.encryptionAlgorithm, f[9..|f| - 4]) == Returned(m)
    ensures m.messageType == r.messageType && m.requestID == r.requestID && m.version == 1
  {
    hide Signed, BeValue, Crypted;
  }

  /** A parsed body is its length byte, name and tail. */
  lemma BodyReadBack(r: Message, m: Message, algorithm: int, body: Octets)
    requires Server.UnwrapBody(r, algorithm, body) == Returned(m) && r.messageType in {ACCESS_AUTH_REQ, CLIENT_PROOF}
    requires m.deviceIDLength == |m.deviceID.value| && Tail(m).Some? && |Tail(m).value| == 32
    ensures body == [Narrow(|m.deviceID.value|)] + m.deviceID.value + Tail(m).value[..32]
    ensures m.encryptionAlgorithm == algorithm
  {
    hide Narrow, Signed;
    var n := Signed(body[0]);
    NarrowSigned(body[0]);
    var id, tail := m.deviceID.value, Tail(m).value;
    assert id == Subarray(body, 1, 1 + n) && tail == Subarray(body, 1 + n, |body|);
    assert id == body[1..1 + n] && tail == body[1 + n..] && tail[..32] == tail;
    assert body == [body[0]] + id + tail;
  }

  lemma ClientBodyIs(m: Message, body: Octets)
    requires m.messageType in {ACCESS_AUTH_REQ, CLIENT_PROOF} && m.deviceID.Some?
    requires Tail(m).Some? && |Tail(m).value| >= 32
    requires m.encryptionAlgorithm == ENCRYPTION_ALGORITHM_AES ==> m.encryptionKeyID.Some? && m.rootKeyValue.Some?
    requires body == [Narrow(|m.deviceID.value|)] + m.deviceID.value + Tail(m).value[..32]
    ensures Client.Body(m) == Returned(body)
  {
    hide Narrow;
  }

  lemma NarrowSigned(b: bv8)
    ensures Narrow(Signed(b)) == b
  {
    ByteRange(b);
    NarrowOfByte(b);
  }

  /** A sealed frame, put together again from its fields, with a key id of `n` bytes. */
  lemma FrameReadBack(m: Message, f: Octets, n: nat)
    requires |f| >= 13 + n && IsSealed(f) && Signed(f[0]) == m.messageType && BeValue(f[1..3]) == m.requestID
    requires Signed(f[3]) == m.status && Signed(f[4]) == |f| - 9 && Signed(f[5]) == m.version
    requires Signed(f[6]) == m.encryptionAlgorithm && BeValue(f[7..9]) == |f| - 13 - n
    ensures
      var k, e := f[9..9 + n], f[9 + n..|f| - 4];
      f == Frame(m.messageType, m.requestID, m.status, 4 + n + |e|,
                 Header(m.version, m.encryptionAlgorithm, |e|, k) + e)
  {
    hide Narrow, Signed, BeValue, ToBe, Sealed, IsSealed;
    NarrowSigned(f[0]);
    NarrowSigned(f[3]);
    NarrowSigned(f[4]);
    NarrowSigned(f[5]);
    NarrowSigned(f[6]);
    ToBeOfValue(f[1..3]);
    ToBeOfValue(f[7..9]);
    var d, k, e := f[..|f| - 4], f[9..9 + n], f[9 + n..|f| - 4];
    assert Header(m.version, m.encryptionAlgorithm, |e|, k) == [f[5], f[6]] + f[7..9] + k;
    FrameData(f, n);
    SealedAgain(f);
  }

  lemma SealedAgain(f: Octets)
    requires IsSealed(f) && |f| >= 4
    ensures f == Sealed(f[..|f| - 4])
  {
    hide Be4, Crc;
  }

  lemma FrameData(f: Octets, n: nat)
    requires |f| >= 13 + n
    ensures f[..|f| - 4] ==
            [f[0]] + f[1..3] + [f[3], f[4]] + ([f[5], f[6]] + f[7..9] + f[9..9 + n] + f[9 + n..|f| - 4])
  {}

  /** The same for an encrypted frame: it is the client's frame around its ciphertext, and the ciphertext
      decrypts, under the stored key that the frame names, to the client's body for what was read. */
  lemma AcceptedIsEncrypted(c: Cipher, rootKeys: map<Octets, Octets>, f: Octets, m: Message)
    requires Server.Unwrap(c, rootKeys, f) == Returned(m) && m.status == SUCCESS
    requires m.encryptionAlgorithm == ENCRYPTION_ALGORITHM_AES
    requires m.deviceID.Some? && m.deviceIDLength == |m.deviceID.value| && Tail(m).Some? && |Tail(m).value| == 32
    ensures |f| >= 29 && m.encryptionKeyID == Some(f[9..25]) && f[9..25] in rootKeys
    ensures
      var k := f[9..25];
      var body := c.decrypt(f[25..|f| - 4], Crypted(rootKeys[k]));
      && body.Some? && Client.Body(m.(rootKeyValue := Some(Crypted(rootKeys[k])))) == Returned(body.value)
      && Client.Encrypted(m, k, f[25..|f| - 4]) == f
  {
    hide Server.Unwrap, Server.UnwrapBody, Client.Body, IsSealed, Crypted, Frame, Header, Narrow;
    var typed, body := EncryptedFields(c, rootKeys, f, m);
    BodyReadBack(typed, m, 1, body);
    ClientBodyIs(m.(rootKeyValue := Some(Crypted(rootKeys[f[9..25]]))), body);
    ServerAcceptsSealed(c, rootKeys, f);
    FrameReadBack(m, f, 16);
  }

  lemma EncryptedFields(c: Cipher, rootKeys: map<Octets, Octets>, f: Octets, m: Message)
    returns (typed: Message, body: Octets)
    requires Server.Unwrap(c, rootKeys, f) == Returned(m) && m.status == SUCCESS
    requires m.encryptionAlgorithm == ENCRYPTION_ALGORITHM_AES
    ensures |f| >= 29 && Signed(f[0]) == m.messageType && m.messageType in {ACCESS_AUTH_REQ, CLIENT_PROOF}
    ensures BeValue(f[1..3]) == m.requestID && Signed(f[3]) == SUCCESS && Signed(f[4]) == |f| - 9
    ensures Signed(f[5]) == m.version && Signed(f[6]) == 1 && BeValue(f[7..9]) == |f| - 29
    ensures f[9..25] in rootKeys && m.encryptionKeyID == Some(f[9..25]) && typed.messageType == m.messageType
    ensures c.decrypt(f[25..|f| - 4], Crypted(rootKeys[f[9..25]])) == Some(body)
    ensures Server.UnwrapBody(typed, 1, body) == Returned(m)
  {
    hide CrcMatches, Signed, BeValue, Crypted, Server.UnwrapData;
    typed := Blank().(status := FAILURE, messageType := Signed(f[0]), requestID := BeValue(Subarray(f, 1, 3)));
    assert |f| >= 7 && Server.UnwrapData(c, rootKeys, f, typed) == Returned(m);
    body := UnwrapDataEncrypted(c, rootKeys, f, typed, m);
    typed := typed.(encryptionKeyID := Some(f[9..25]));
  }

  lemma UnwrapDataEncrypted(c: Cipher, rootKeys: map<Octets, Octets>, f: Octets, r: Message, m: Message)
    returns (body: Octets)
    requires |f| >= 7 && Server.UnwrapData(c, rootKeys, f, r) == Returned(m) && m.status == SUCCESS != r.status
    requires m.encryptionAlgorithm == ENCRYPTION_ALGORITHM_AES
    ensures |f| >= 29 && Signed(f[6]) == 1 && BeValue(f[7..9]) == |f| - 29 && f[9..25] in rootKeys
    ensures c.decrypt(f[25..|f| - 4], Crypted(rootKeys[f[9..25]])) == Some(body)
    ensures Server.UnwrapBody(r.(encryptionKeyID := Some(f[9..25])), 1, body) == Returned(m)
    ensures m.encryptionKeyID == Some(f[9..25])
    ensures m.messageType == r.messageType && m.requestID == r.requestID && m.version == 1
  {
    hide Signed, BeValue, Crypted, Server.UnwrapBody;
    assert Signed(f[6]) == 1 by { AlgorithmByte(c, rootKeys, f, r, m); }
    assert Subarray(f, 9, 25) == f[9..25] && Subarray(f, 25, |f| - 4) == f[25..|f| - 4];
    body := c.decrypt(f[25..|f| - 4], Crypted(rootKeys[f[9..25]])).value;
    BodyKeeps(r.(encryptionKeyID := Some(f[9..25])), 1, body, m);
  }

  lemma BodyKeeps(r: Message, algorithm: int, body: Octets, m: Message)
    requires Server.UnwrapBody(r, algorithm, body) == Returned(m)
    ensures m.messageType == r.messageType && m.requestID == r.requestID && m.version == 1
    ensures m.encryptionKeyID == r.encryptionKeyID && m.encryptionAlgorithm == algorithm
  {
    hide Signed, Subarray;
  }

  lemma AlgorithmByte(c: Cipher, rootKeys: map<Octets, Octets>, f: Octets, r: Message, m: Message)
    requires |f| >= 7 && Server.UnwrapData(c, rootKeys, f, r) == Returned(m) && m.status == SUCCESS != r.status
    ensures Signed(f[6]) == m.encryptionAlgorithm
  {
    hide Signed, BeValue, Crypted, Subarray;
  }

  /** The client sends nothing exactly under another algorithm, without its root key, or when the cipher fails. */
  lemma ClientSendsNull(c: Cipher, roots: map<string, Octets>, m: Message)
    requires Client.Body(m).Returned?
    ensures Client.Wrap(c, roots, m) == Returned(None) <==>
            if m.encryptionAlgorithm == 1 then
              var key := Client.RootKey(Client.RootsAfter(roots, m), m.encryptionKeyID);
              key.None? || c.encrypt(Client.Body(m).value, key.value).None?
            else m.encryptionAlgorithm != 0
  {
    hide Client.Body, Client.RootKey, Client.RootsAfter, Client.Plain, Client.Encrypted;
  }

  // ----- exceptions

  /** A whole success frame of version 1, as far as it goes: every check passes that the length allows. */
  predicate PassesSoFar(f: Octets, types: set<int>) {
    && f != [] && Signed(f[0]) in types && (|f| >= 4 ==> f[3] == 0)
    && (|f| >= 5 ==> Signed(f[4]) == |f| - 9 && IsSealed(f)) && (|f| >= 6 ==> f[5] == 1)
  }

  /** The server throws exactly on the empty array, on an array of at most six bytes that passes the checks it is
      long enough for, and on a frame with an empty body. */
  lemma ServerThrowsIff(c: Cipher, rootKeys: map<Octets, Octets>, f: Octets)
    ensures Server.Unwrap(c, rootKeys, f).Thrown? <==>
            || f == []
            || (PassesSoFar(f, {81, 83}) && (|f| <= 6 || ServerBody(c, rootKeys, f) == Some([])))
  {
    hide Signed, CrcMatches, IsSealed, Server.UnwrapData;
    if |f| >= 4 {
      SignedByte(f[3], 0);
      CrcMatchesIff(f);
    }
    if |f| >= 6 {
      SignedByte(f[5], 1);
    }
    if |f| >= 7 {
      var heading := Blank().(status := FAILURE, messageType := Signed(f[0]), requestID := BeValue(Subarray(f, 1, 3)));
      ServerDataThrowsIff(c, rootKeys, f, heading);
    }
  }

  /** The body in a frame, if its length and its root key are right. */
  function ServerBody(c: Cipher, rootKeys: map<Octets, Octets>, f: Octets): Option<Octets>
    requires |f| >= 7
  {
    if f[6] != 1 then if |f| >= 13 && BeValue(f[7..9]) == |f| - 13 then Some(f[9..|f| - 4]) else None
    else if |f| >= 29 && BeValue(f[7..9]) == |f| - 29 && f[9..25] in rootKeys
    then c.decrypt(f[25..|f| - 4], Crypted(rootKeys[f[9..25]]))
    else None
  }

  lemma ServerDataThrowsIff(c: Cipher, rootKeys: map<Octets, Octets>, f: Octets, r: Message)
    requires |f| >= 7
    ensures Server.UnwrapData(c, rootKeys, f, r).Thrown? <==> ServerBody(c, rootKeys, f) == Some([])
  {
    hide Signed, BeValue, Crypted, Server.UnwrapBody, Subarray;
    SignedByte(f[6], 1);
    if |f| >= 9 {
      SlicesOf(f, 7, 9);
    }
    if |f| >= 13 {
      SlicesOf(f, 9, |f| - 4);
      BodyThrows(r, Signed(f[6]), f[9..|f| - 4]);
    }
    if |f| >= 29 {
      SlicesOf(f, 9, 25);
      SlicesOf(f, 25, |f| - 4);
      var k := f[9..25];
      if k in rootKeys && c.decrypt(f[25..|f| - 4], Crypted(rootKeys[k])).Some? {
        BodyThrows(r.(encryptionKeyID := Some(k)), 1, c.decrypt(f[25..|f| - 4], Crypted(rootKeys[k])).value);
      }
    }
  }

  lemma SlicesOf(f: Octets, i: nat, j: nat)
    requires i <= j <= |f|
    ensures Subarray(f, i, j) == f[i..j]
  {}

  lemma BodyThrows(r: Message, algorithm: int, body: Octets)
    ensures Server.UnwrapBody(r, algorithm, body).Thrown? <==> body == []
  {
    hide Signed, Subarray;
  }

  lemma SignedByte(b: bv8, v: bv8)
    requires v == 0 || v == 1
    ensures Signed(b) == v as int <==> b == v
  {
    NarrowSigned(b);
    NarrowSigned(v);
    hide Narrow;
    assert Signed(0) == 0 && Signed(1) == 1;
  }

  /** The client likewise; a body in the clear is never empty, since it keeps the CRC. */
  lemma ClientThrowsIff(c: Cipher, roots: map<string, Octets>, f: Octets)
    ensures Client.Unwrap(c, roots, f).Thrown? <==>
            || f == []
            || (PassesSoFar(f, {82, 84}) &&
                (|f| <= 6 || (f[6] == 0 && |f| <= 9) || (f[6] == 1 && DecryptedBody(c, roots, f) == Some([]))))
  {
    hide Signed, CrcMatches, IsSealed, Client.UnwrapData;
    if |f| >= 4 {
      SignedByte(f[3], 0);
      CrcMatchesIff(f);
    }
    if |f| >= 6 {
      SignedByte(f[5], 1);
    }
    if |f| >= 7 {
      ClientDataThrowsIff(c, roots, f);
    }
  }

  function DecryptedBody(c: Cipher, roots: map<string, Octets>, f: Octets): Option<Octets>
    requires |f| >= 7
  {
    var id := Hex(Subarray(f, 9, 25));
    if id in roots then c.decrypt(Subarray(f, 25, |f| - 4), roots[id]) else None
  }

  lemma ClientDataThrowsIff(c: Cipher, roots: map<string, Octets>, f: Octets)
    requires |f| >= 7
    ensures Client.UnwrapData(c, roots, f).Thrown? <==>
            (f[6] == 0 && |f| <= 9) || (f[6] == 1 && DecryptedBody(c, roots, f) == Some([]))
  {
    hide Signed, BeValue, Hex, Client.LeValue;
    SignedByte(f[6], 0);
    SignedByte(f[6], 1);
  }

  /** What the client takes from the header of a message, its length in the other byte order. */
  lemma ClientHeader(c: Cipher, roots: map<string, Octets>, f: Octets, m: Message)
    requires Client.Unwrap(c, roots, f) == Returned(Some(m))
    ensures |f| >= 7 && m.messageType == Signed(f[0]) && m.encryptionAlgorithm == Signed(f[6])
    ensures m.requestID == 256 * f[1] as int + f[2] as int && m.status == SUCCESS && m.version == 1
    ensures |f| >= 9 ==> m.messageLength == f[7] as int + 256 * f[8] as int
  {
    hide Signed, CrcMatches, BeValue, Client.LeValue, Hex, Subarray;
    if |f| >= 3 {
      TwoByteValues(f, 1);
    }
    if |f| >= 9 {
      TwoByteValues(f, 7);
    }
  }

  lemma TwoByteValues(f: Octets, k: nat)
    requires k + 2 <= |f|
    ensures BeValue(Subarray(f, k, k + 2)) == 256 * f[k] as int + f[k + 1] as int
    ensures Client.LeValue(Subarray(f, k, k + 2)) == f[k] as int + 256 * f[k + 1] as int
  {
    var s := f[k..k + 2];
    assert s[..1] == [f[k]] && s[1..] == [f[k + 1]];
    OneByteValue(f[k]);
    OneByteValue(f[k + 1]);
  }

  lemma OneByteValue(b: bv8)
    ensures BeValue([b]) == b as int && Client.LeValue([b]) == b as int
  {
    assert [b][..0] == [] && [b][1..] == [];
  }
}
