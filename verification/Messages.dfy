/** What the two PacketUtil classes share: messages, byte buffers, the body cipher and the frame layout.

    A frame is type (1 byte), request id (2), status (1), data length (1), data, CRC-32 (4). A byte
    array that may be null is an Option; arrays that nothing writes to after they are built are values. */
module Messages {
  import opened Bytes
  import opened JavaBytes
  import opened Crc32

  const ACCESS_AUTH_REQ := 81
  const ACCESS_AUTH_RESP := 82
  const CLIENT_PROOF := 83
  const SERVER_PROOF := 84

  const SUCCESS := 0
  const FAILURE := 101

  const ENCRYPTION_ALGORITHM_DEFAULT := 0
  const ENCRYPTION_ALGORITHM_AES := 1

  /** The cipher for message bodies: text and key to text, with None for an exception. */
  datatype Cipher = Cipher(encrypt: (Octets, Octets) -> Option<Octets>, decrypt: (Octets, Octets) -> Option<Octets>) {

    /** Under `key`, decryption undoes encryption, which pads to the next multiple of 16. */
    ghost predicate Serves(key: Octets) {
      forall m ::
        && encrypt(m, key).Some?
        && |encrypt(m, key).value| == 16 * (|m| / 16 + 1)
        && decrypt(encrypt(m, key).value, key) == Some(m)
    }
  }

  /** The fields of an AuthenticationMessage. */
  datatype Message = Message(
    messageType: int, requestID: int, status: int, version: int, encryptionAlgorithm: int, messageLength: int,
    encryptionKeyID: Option<Octets>, iterationCount: int, deviceIDLength: int, deviceID: Option<Octets>,
    salt: Option<Octets>, serverNonce: Option<Octets>, serverProof: Option<Octets>, clientNonce: Option<Octets>,
    clientProof: Option<Octets>, rootKeyValue: Option<Octets>)

  function Blank(): Message {
    Message(0, 0, 0, 0, 0, 0, None, 0, 0, None, None, None, None, None, None, None)
  }

  /** SessionInfo */
  datatype Session = Session(deviceId: string, sessionId: string, sessionKey: Octets)

  /** AuthenticationMessage of either side; setters that are called together are one method here. */
  class AuthenticationMessage {
    var messageType: int
    var requestID: int
    var status: int
    var version: int
    var encryptionAlgorithm: int
    var messageLength: int
    var encryptionKeyID: Option<Octets>
    var iterationCount: int
    var deviceIDLength: int
    var deviceID: Option<Octets>
    var salt: Option<Octets>
    var serverNonce: Option<Octets>
    var serverProof: Option<Octets>
    var clientNonce: Option<Octets>
    var clientProof: Option<Octets>
    var rootKeyValue: Option<Octets>

    constructor ()
      ensures View() == Blank()
    {
      messageType, requestID, status, version, encryptionAlgorithm, messageLength := 0, 0, 0, 0, 0, 0;
      encryptionKeyID, iterationCount, deviceIDLength, deviceID := None, 0, 0, None;
      salt, serverNonce, serverProof, clientNonce, clientProof, rootKeyValue := None, None, None, None, None, None;
    }

    ghost function View(): (m: Message)
      reads this
      ensures m.messageType == messageType && m.encryptionAlgorithm == encryptionAlgorithm
      ensures m.deviceID == deviceID && m.serverProof == serverProof
    {
      Message(messageType, requestID, status, version, encryptionAlgorithm, messageLength, encryptionKeyID,
              iterationCount, deviceIDLength, deviceID, salt, serverNonce, serverProof, clientNonce, clientProof,
              rootKeyValue)
    }

    /** setMessageType and setStatus, which are mostly called together. */
    method Mark(messageType: int, status: int)
      modifies this`messageType, this`status
      ensures this.messageType == messageType && this.status == status
      ensures View() == old(View()).(messageType := messageType, status := status)
    {
      this.messageType, this.status := messageType, status;
    }

    method SetName(deviceIDLength: int, deviceID: Option<Octets>)
      modifies this`deviceIDLength, this`deviceID
      ensures View() == old(View()).(deviceIDLength := deviceIDLength, deviceID := deviceID)
    {
      this.deviceIDLength, this.deviceID := deviceIDLength, deviceID;
    }

    method SetMode(version: int, encryptionAlgorithm: int)
      modifies this`version, this`encryptionAlgorithm
      ensures View() == old(View()).(version := version, encryptionAlgorithm := encryptionAlgorithm)
    {
      this.version, this.encryptionAlgorithm := version, encryptionAlgorithm;
    }

    method SetChallenge(salt: Octets, iterationCount: int, serverNonce: Octets)
      modifies this`salt, this`iterationCount, this`serverNonce
      ensures View() ==
              old(View()).(salt := Some(salt), iterationCount := iterationCount, serverNonce := Some(serverNonce))
    {
      this.salt, this.iterationCount, this.serverNonce := Some(salt), iterationCount, Some(serverNonce);
    }

    method SetServerProof(proof: Octets)
      modifies this`serverProof
      ensures View() == old(View()).(serverProof := Some(proof))
    {
      serverProof := Some(proof);
    }

    method SetClientNonce(nonce: Octets)
      modifies this`clientNonce
      ensures View() == old(View()).(clientNonce := Some(nonce))
    {
      clientNonce := Some(nonce);
    }

    method SetClientProof(proof: Octets)
      modifies this`clientProof
      ensures View() == old(View()).(clientProof := Some(proof))
    {
      clientProof := Some(proof);
    }

    method SetKeys(keyID: Option<Octets>, rootKey: Option<Octets>)
      modifies this`encryptionKeyID, this`rootKeyValue
      ensures View() == old(View()).(encryptionKeyID := keyID, rootKeyValue := rootKey)
    {
      encryptionKeyID, rootKeyValue := keyID, rootKey;
    }

    method SetRequest(requestID: int, messageLength: int)
      modifies this`requestID, this`messageLength
      ensures View() == old(View()).(requestID := requestID, messageLength := messageLength)
    {
      this.requestID, this.messageLength := requestID, messageLength;
    }
  }

  /** The writing half of a ByteBuf. */
  class ByteBuf {
    var contents: Octets

    constructor ()
      ensures contents == []
    {
      contents := [];
    }

    method WriteByte(value: int)
      modifies this
      ensures contents == old(contents) + [Narrow(value)]
    {
      contents := contents + [Narrow(value)];
    }

    /** Two bytes, high byte first. */
    method WriteShort(value: int)
      modifies this
      ensures contents == old(contents) + ToBe(value, 2)
    {
      ToBeTwo(value);
      contents := contents + [Narrow(value / 256), Narrow(value)];
    }

    method WriteBytes(bytes: Octets)
      modifies this
      ensures contents == old(contents) + bytes
    {
      contents := contents + bytes;
    }
  }

  lemma ToBeTwo(value: int)
    ensures ToBe(value, 2) == [Narrow(value / 256), Narrow(value)]
  {
    hide Narrow;
    assert ToBe(value / 256, 1) == [Narrow(value / 256)];
  }

  /** A two-byte field carries 16 bits. */
  lemma ShortValue(value: int)
    ensures BeValue(ToBe(value, 2)) == value % 65536
  {
    ToBeValue(value, 2);
    assert Pow256(2) == 65536;
  }

  // ----- the CRC field

  /** A register as the unsigned long that getCRC32 returns. */
  function WordValue(w: bv32): nat { BeValue(Be4(w)) }

  /** getCRCBigEndian */
  function CrcBytes(m: Octets): (r: Octets)
    ensures |r| == 4
  {
    ToBe(WordValue(Crc(m)), 4)
  }

  lemma CrcBytesSeal(m: Octets)
    ensures m + CrcBytes(m) == Sealed(m)
  {
    hide ToBe, BeValue, Be4, Crc;
    ToBeOfValue(Be4(Crc(m)));
  }

  /** The comparison both receivers make. */
  predicate CrcMatches(f: Octets) {
    BeValue(Subarray(f, |f| - 4, |f|)) == WordValue(Crc(Subarray(f, 0, |f| - 4)))
  }

  lemma CrcMatchesIff(f: Octets)
    requires |f| >= 4
    ensures CrcMatches(f) <==> IsSealed(f)
  {
    hide BeValue, Be4, Crc;
    var n := |f| - 4;
    assert Subarray(f, n, |f|) == f[n..] && Subarray(f, 0, n) == f[..n] && f == f[..n] + f[n..];
    if CrcMatches(f) {
      BeValueInjective(f[n..], Be4(Crc(f[..n])));
    }
    if IsSealed(f) {
      assert f[n..] == Sealed(f[..n])[n..] == Be4(Crc(f[..n]));
    }
  }

  // ----- frames

  /** A frame with `dataLength` in its length field. */
  function Frame(messageType: int, requestID: int, status: int, dataLength: int, data: Octets): (f: Octets)
    ensures |f| == |data| + 9
  {
    Sealed([Narrow(messageType)] + ToBe(requestID, 2) + [Narrow(status), Narrow(dataLength)] + data)
  }

  /** The fields, where a receiver looks for them. */
  lemma FrameFields(messageType: int, requestID: int, status: int, dataLength: int, data: Octets)
    ensures
      var f := Frame(messageType, requestID, status, dataLength, data);
      && f[0] == Narrow(messageType) && Subarray(f, 1, 3) == ToBe(requestID, 2)
      && f[3] == Narrow(status) && f[4] == Narrow(dataLength)
      && f[5..|f| - 4] == data && CrcMatches(f)
  {
    hide Narrow, ToBe, Be4, Crc, CrcMatches;
    var f := Frame(messageType, requestID, status, dataLength, data);
    var m := [Narrow(messageType)] + ToBe(requestID, 2) + [Narrow(status), Narrow(dataLength)] + data;
    assert f[..|f| - 4] == m;
    CrcMatchesIff(f);
    assert f[5..|f| - 4] == m[5..] == data;
    assert f[0] == m[0] && f[3] == m[3] && f[4] == m[4];
    assert Subarray(f, 1, 3) == f[1..3] == m[1..3] == ToBe(requestID, 2);
  }

  /** A slice of the data is a slice of the frame. */
  lemma DataSlice(f: Octets, data: Octets, i: nat, j: nat)
    requires |f| >= 9 && f[5..|f| - 4] == data && i <= j <= |data|
    ensures Subarray(f, 5 + i, 5 + j) == data[i..j]
    ensures i < |data| ==> f[5 + i] == data[i]
  {
    var s := f[5..|f| - 4];
    forall k | 0 <= k < j - i ensures f[5 + i..5 + j][k] == s[i..j][k] {
      assert s[i..j][k] == s[i + k] == f[5 + i + k];
    }
    assert f[5 + i..5 + j] == s[i..j];
  }

  /** Version, algorithm, body length, and the key id when the body is encrypted. */
  function Header(version: int, algorithm: int, length: int, keyID: Octets): (r: Octets)
    ensures |r| == 4 + |keyID|
  {
    [Narrow(version), Narrow(algorithm)] + ToBe(length, 2) + keyID
  }

  lemma HeaderFields(version: int, algorithm: int, length: int, keyID: Octets, body: Octets)
    ensures
      var d := Header(version, algorithm, length, keyID) + body;
      && d[0] == Narrow(version) && d[1] == Narrow(algorithm) && d[2..4] == ToBe(length, 2)
      && d[4..4 + |keyID|] == keyID && d[4 + |keyID|..] == body
  {
    hide Narrow, ToBe;
  }

  // ----- bodies from the server

  /** Name, salt, iteration count, two reserved bytes, nonce. */
  function ChallengeBody(id: Octets, salt: Octets, iterationCount: int, nonce: Octets): (r: Octets)
    ensures |r| == |id| + |salt| + |nonce| + 5
  {
    [Narrow(|id|)] + id + salt + BigEndianShort(iterationCount) + [0, 0] + nonce
  }

  function ProofBody(id: Octets, proof: Octets): (r: Octets)
    ensures |r| == |id| + |proof| + 1
  {
    [Narrow(|id|)] + id + proof
  }
}
