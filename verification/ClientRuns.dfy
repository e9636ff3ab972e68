/** Every run of the client: received frames, requests and collected sessions in any order. */
module ClientRuns {
  import opened Bytes
  import opened JavaBytes
  import opened Messages
  import opened Algorithms
  import opened ClientPackets
  import opened ClientProcessor
  import Frames
  import SP = ServerPackets
  import H = Handshake
  import W = Wire

  /** A call of the library. */
  datatype Call = Start(info: AccessInfo, nonce: Bytes32) | Receive(frame: Octets) | Collect(id: Octets)

  /** ROOT_KEY_MAP and the map of the processor. */
  datatype Client = Client(roots: map<string, Octets>, pending: Assists)

  function Do(p: Primitives, c: Cipher, s: Client, call: Call): Client {
    match call
    case Start(info, nonce) =>
      if StartAllowed(info)
      then Client(RootsAfter(s.roots, StartMessage(info, nonce)), Restarted(s.pending, info, nonce))
      else s
    case Receive(frame) => Client(s.roots, Step(p, c, s.roots, s.pending, frame).pending)
    case Collect(id) => Client(s.roots, Collected(s.pending, id).1)
  }

  /** The state after some calls. */
  function After(p: Primitives, c: Cipher, s: Client, calls: seq<Call>): Client
    decreases |calls|
  {
    if calls == [] then s else Do(p, c, After(p, c, s, calls[..|calls| - 1]), calls[|calls| - 1])
  }

  /** The call does not begin or end the exchange of device `d`. */
  predicate Leaves(call: Call, d: string) {
    match call
    case Start(info, _) => !StartAllowed(info) || Hex(info.deviceID.value) != d
    case Receive(_) => true
    case Collect(id) => Hex(id) != d
  }

  /** What a received frame says about device `d`. */
  function For(c: Cipher, s: Client, call: Call, d: string): Option<Message> {
    if !call.Receive? then None
    else
      match Unwrap(c, s.roots, call.frame)
      case Returned(Some(m)) => if m.deviceID.Some? && Hex(m.deviceID.value) == d then Some(m) else None
      case _ => None
  }

  /** The call is a challenge for `d`, and a proof is made for it. */
  predicate Challenges(p: Primitives, c: Cipher, s: Client, call: Call, d: string) {
    var m := For(c, s, call, d);
    m.Some? && m.value.messageType == ACCESS_AUTH_RESP && d in s.pending && Prove(p, s.pending[d], m.value).Returned?
  }

  /** The call is a server proof for `d` that equals the session key of its entry. */
  predicate Verifies(c: Cipher, s: Client, call: Call, d: string) {
    var m := For(c, s, call, d);
    && m.Some? && m.value.messageType == SERVER_PROOF
    && d in s.pending && s.pending[d].session.Some?
    && m.value.serverProof == Some(s.pending[d].session.value.sessionKey)
  }

  /** The session that a challenge leaves in the entry. */
  function SessionFrom(p: Primitives, a: Assist, m: Message): Option<ClientSession>
    requires Prove(p, a, m).Returned?
  {
    Prove(p, a, m).value.assist.session
  }

  /** What one call does to the entry of a device whose exchange it does not begin or end. */
  lemma EntryAfter(p: Primitives, c: Cipher, s: Client, call: Call, d: string)
    requires Leaves(call, d) && d in s.pending
    ensures d in Do(p, c, s, call).pending
    ensures !(Challenges(p, c, s, call, d) && Verifies(c, s, call, d))
    ensures
      var a, b := s.pending[d], Do(p, c, s, call).pending[d];
      if Challenges(p, c, s, call, d) then b == a.(session := SessionFrom(p, a, For(c, s, call, d).value))
      else if Verifies(c, s, call, d) then b == a.(success := true, latch := if a.latch > 0 then a.latch - 1 else 0)
      else b == a
  {
    hide Hex, Unwrap, Prove, RootsAfter, Wrap;
    if call.Receive? {
      ReceivedEntry(p, c, s, call.frame, d);
    }
  }

  lemma ReceivedEntry(p: Primitives, c: Cipher, s: Client, frame: Octets, d: string)
    requires d in s.pending
    ensures
      var a, after := s.pending[d], Step(p, c, s.roots, s.pending, frame).pending;
      && d in after
      && var call := Receive(frame);
      if Challenges(p, c, s, call, d)
      then after[d] == a.(session := SessionFrom(p, a, For(c, s, call, d).value))
      else if Verifies(c, s, call, d)
      then after[d] == a.(success := true, latch := if a.latch > 0 then a.latch - 1 else 0)
      else after[d] == a
  {
    hide Hex, Unwrap, Wrap;
    match Unwrap(c, s.roots, frame)
    case Returned(Some(m)) =>
      if m.deviceID.Some? && Hex(m.deviceID.value) in s.pending {
        ProvenEntry(p, s.pending[Hex(m.deviceID.value)], m);
      }
      hide Prove;
    case _ =>
  }

  lemma ProvenEntry(p: Primitives, a: Assist, m: Message)
    ensures Prove(p, a, m).Returned? ==> Prove(p, a, m).value.assist == a.(session := SessionFrom(p, a, m))
  {
    hide AuthInfo, SessionFor, ProofOf;
  }

  /** What a server proof is answered with. */
  lemma ServerProofAnswered(p: Primitives, c: Cipher, s: Client, f: Octets, d: string)
    requires For(c, s, Receive(f), d).Some? && For(c, s, Receive(f), d).value.messageType == SERVER_PROOF
    ensures
      var answer := Step(p, c, s.roots, s.pending, f).answer;
      if d !in s.pending || s.pending[d].session.None? then answer == Thrown
      else
        var own := s.pending[d].session.value;
        answer == Returned(Checked(if Verifies(c, s, Receive(f), d)
                                   then Some(Session(d, Hex(own.sessionID), own.sessionKey)) else None))
  {
    hide Hex, Unwrap;
    ProofIsThere(c, s.roots, f, For(c, s, Receive(f), d).value);
  }

  lemma ProofIsThere(c: Cipher, roots: map<string, Octets>, f: Octets, m: Message)
    requires Unwrap(c, roots, f) == Returned(Some(m)) && m.messageType == SERVER_PROOF
    ensures m.serverProof.Some?
  {
    hide CheckMessage, Hex, Signed, Subarray, BeValue, LeValue;
  }

  // ----- over a run

  predicate AllLeave(calls: seq<Call>, d: string) {
    forall k :: 0 <= k < |calls| ==> Leaves(calls[k], d)
  }

  predicate VerifiesAt(p: Primitives, c: Cipher, s: Client, calls: seq<Call>, d: string, k: nat)
    requires k < |calls|
  {
    Verifies(c, After(p, c, s, calls[..k]), calls[k], d)
  }

  predicate ChallengesAt(p: Primitives, c: Cipher, s: Client, calls: seq<Call>, d: string, k: nat)
    requires k < |calls|
  {
    Challenges(p, c, After(p, c, s, calls[..k]), calls[k], d)
  }

  ghost predicate SomeVerifies(p: Primitives, c: Cipher, s: Client, calls: seq<Call>, d: string) {
    exists k :: 0 <= k < |calls| && VerifiesAt(p, c, s, calls, d, k)
  }

  lemma Earlier(p: Primitives, c: Cipher, s: Client, calls: seq<Call>, d: string)
    requires calls != []
    ensures
      var before := calls[..|calls| - 1];
      && (AllLeave(calls, d) ==> AllLeave(before, d) && Leaves(calls[|calls| - 1], d))
      && (forall k :: 0 <= k < |before| ==>
           && before[..k] == calls[..k]
           && (VerifiesAt(p, c, s, before, d, k) <==> VerifiesAt(p, c, s, calls, d, k))
           && (ChallengesAt(p, c, s, before, d, k) <==> ChallengesAt(p, c, s, calls, d, k)))
  {
    hide After, Verifies, Challenges, Leaves;
    var before := calls[..|calls| - 1];
    forall k | 0 <= k < |before| ensures before[..k] == calls[..k] && before[k] == calls[k] {
      assert before[..k] == calls[..k];
    }
  }

  /** From an entry that is just started: it is marked, and the latch open, exactly if some call verified it. */
  lemma {:induction false} MarkedIff(p: Primitives, c: Cipher, s: Client, calls: seq<Call>, d: string)
    requires AllLeave(calls, d) && d in s.pending && !s.pending[d].success && s.pending[d].latch == 1
    ensures
      var t := After(p, c, s, calls);
      && d in t.pending && (t.pending[d].success <==> SomeVerifies(p, c, s, calls, d))
      && t.pending[d].latch == (if t.pending[d].success then 0 else 1)
    decreases |calls|
  {
    hide Do, Verifies, Challenges, Leaves, AllLeave;
    if calls != [] {
      var n := |calls| - 1;
      Earlier(p, c, s, calls, d);
      MarkedIff(p, c, s, calls[..n], d);
      EntryAfter(p, c, After(p, c, s, calls[..n]), calls[n], d);
      MarkStep(p, c, s, calls, d);
    }
  }

  lemma MarkStep(p: Primitives, c: Cipher, s: Client, calls: seq<Call>, d: string)
    requires calls != []
    ensures SomeVerifies(p, c, s, calls, d) <==>
            SomeVerifies(p, c, s, calls[..|calls| - 1], d) || VerifiesAt(p, c, s, calls, d, |calls| - 1)
  {
    hide VerifiesAt, ChallengesAt;
    Earlier(p, c, s, calls, d);
    if SomeVerifies(p, c, s, calls[..|calls| - 1], d) {
      var k :| 0 <= k < |calls| - 1 && VerifiesAt(p, c, s, calls[..|calls| - 1], d, k);
      assert VerifiesAt(p, c, s, calls, d, k);
    }
    if SomeVerifies(p, c, s, calls, d) && !VerifiesAt(p, c, s, calls, d, |calls| - 1) {
      var k :| 0 <= k < |calls| && VerifiesAt(p, c, s, calls, d, k);
      assert VerifiesAt(p, c, s, calls[..|calls| - 1], d, k);
    }
  }

  /** A session that a call has verified stays in the entry until a later challenge for the device. */
  lemma {:induction false} VerifiedStays(p: Primitives, c: Cipher, s: Client, calls: seq<Call>, d: string, k: nat)
    requires AllLeave(calls, d) && d in s.pending && k < |calls| && VerifiesAt(p, c, s, calls, d, k)
    requires forall j :: k < j < |calls| ==> !ChallengesAt(p, c, s, calls, d, j)
    ensures d in After(p, c, s, calls).pending && d in After(p, c, s, calls[..k]).pending
    ensures After(p, c, s, calls).pending[d].session == After(p, c, s, calls[..k]).pending[d].session
    decreases |calls|
  {
    hide Do, Verifies, Challenges, Leaves, AllLeave;
    var n := |calls| - 1;
    Earlier(p, c, s, calls, d);
    EntryStays(p, c, s, calls[..n], d);
    EntryAfter(p, c, After(p, c, s, calls[..n]), calls[n], d);
    if k < n {
      assert !ChallengesAt(p, c, s, calls, d, n) && calls[..n][..k] == calls[..k];
      VerifiedStays(p, c, s, calls[..n], d, k);
    }
  }

  /** The session of the last challenge is the one that is there. */
  lemma {:induction false} LastChallengeStays(p: Primitives, c: Cipher, s: Client, calls: seq<Call>, d: string, k: nat)
    requires AllLeave(calls, d) && d in s.pending && k < |calls| && ChallengesAt(p, c, s, calls, d, k)
    requires forall j :: k < j < |calls| ==> !ChallengesAt(p, c, s, calls, d, j)
    ensures d in After(p, c, s, calls).pending
    ensures After(p, c, s, calls).pending[d].session == SessionOf(p, c, After(p, c, s, calls[..k]), calls[k], d)
    decreases |calls|
  {
    hide Do, Verifies, Challenges, Leaves, AllLeave, SessionOf;
    var n := |calls| - 1;
    Earlier(p, c, s, calls, d);
    EntryStays(p, c, s, calls[..n], d);
    EntryAfter(p, c, After(p, c, s, calls[..n]), calls[n], d);
    if k < n {
      assert !ChallengesAt(p, c, s, calls, d, n) && calls[..n][..k] == calls[..k];
      LastChallengeStays(p, c, s, calls[..n], d, k);
    } else {
      SessionOfIs(p, c, After(p, c, s, calls[..n]), calls[n], d);
    }
  }

  /** What a challenge stores. */
  function SessionOf(p: Primitives, c: Cipher, s: Client, call: Call, d: string): Option<ClientSession> {
    if Challenges(p, c, s, call, d) then SessionFrom(p, s.pending[d], For(c, s, call, d).value) else None
  }

  lemma SessionOfIs(p: Primitives, c: Cipher, s: Client, call: Call, d: string)
    requires Challenges(p, c, s, call, d)
    ensures SessionOf(p, c, s, call, d) == SessionFrom(p, s.pending[d], For(c, s, call, d).value)
  {}

  lemma {:induction false} EntryStays(p: Primitives, c: Cipher, s: Client, calls: seq<Call>, d: string)
    requires AllLeave(calls, d) && d in s.pending
    ensures d in After(p, c, s, calls).pending
    decreases |calls|
  {
    hide Do, Verifies, Challenges, Leaves, AllLeave;
    if calls != [] {
      Earlier(p, c, s, calls, d);
      EntryStays(p, c, s, calls[..|calls| - 1], d);
      EntryAfter(p, c, After(p, c, s, calls[..|calls| - 1]), calls[|calls| - 1], d);
    }
  }

  /** What getSessionInfo hands out, in every run since the request of the device: a session exactly if a server
      proof of that run was equal to the session key of the entry, and null otherwise. It is the session that was
      verified, unless a further challenge was answered after that. */
  lemma SessionOnlyIfVerified(p: Primitives, c: Cipher, s: Client, info: AccessInfo, nonce: Bytes32, calls: seq<Call>)
    requires StartAllowed(info) && AllLeave(calls, Hex(info.deviceID.value))
    ensures
      var d, started := Hex(info.deviceID.value), Do(p, c, s, Start(info, nonce));
      var r := Collected(After(p, c, started, calls).pending, info.deviceID.value).0;
      && r.Returned? && (r.value.Some? <==> SomeVerifies(p, c, started, calls, d))
      && forall k :: 0 <= k < |calls| && VerifiesAt(p, c, started, calls, d, k) &&
                     (forall j :: k < j < |calls| ==> !ChallengesAt(p, c, started, calls, d, j)) ==>
                     r.value == SessionAt(p, c, started, calls, d, k)
  {
    hide After, Hex, AllLeave, VerifiesAt, ChallengesAt, RootsAfter, StartMessage;
    var d, started := Hex(info.deviceID.value), Do(p, c, s, Start(info, nonce));
    MarkedIff(p, c, started, calls, d);
    MarkedHasSession(p, c, started, calls, d);
    forall k | 0 <= k < |calls| && VerifiesAt(p, c, started, calls, d, k) &&
               (forall j :: k < j < |calls| ==> !ChallengesAt(p, c, started, calls, d, j))
      ensures After(p, c, started, calls).pending[d].session == SessionAt(p, c, started, calls, d, k)
    {
      VerifiedStays(p, c, started, calls, d, k);
      assert SomeVerifies(p, c, started, calls, d);
    }
  }

  /** The session of the entry before call `k`. */
  function SessionAt(p: Primitives, c: Cipher, s: Client, calls: seq<Call>, d: string, k: nat): Option<ClientSession>
    requires k <= |calls|
  {
    var t := After(p, c, s, calls[..k]);
    if d in t.pending then t.pending[d].session else None
  }

  /** A marked entry has a session. */
  lemma {:induction false} MarkedHasSession(p: Primitives, c: Cipher, s: Client, calls: seq<Call>, d: string)
    requires AllLeave(calls, d) && d in s.pending && (s.pending[d].success ==> s.pending[d].session.Some?)
    ensures
      var t := After(p, c, s, calls);
      d in t.pending && (t.pending[d].success ==> t.pending[d].session.Some?)
    decreases |calls|
  {
    hide Do, Leaves, AllLeave, For, Prove;
    if calls != [] {
      var n := |calls| - 1;
      Earlier(p, c, s, calls, d);
      MarkedHasSession(p, c, s, calls[..n], d);
      var t := After(p, c, s, calls[..n]);
      EntryAfter(p, c, t, calls[n], d);
      if Challenges(p, c, t, calls[n], d) {
        ProvenSession(p, t.pending[d], For(c, t, calls[n], d).value);
      }
    }
  }

  lemma ProvenSession(p: Primitives, a: Assist, m: Message)
    requires Prove(p, a, m).Returned?
    ensures SessionFrom(p, a, m).Some?
  {
    hide AuthInfo, SessionFor, ProofOf;
  }

  /** A session is handed out once; the entries of other devices stay. */
  lemma CollectedOnce(pending: Assists, id: Octets, other: string)
    ensures
      var rest := Collected(pending, id).1;
      && Collected(rest, id) == (Thrown, rest)
      && (other != Hex(id) ==>
            (other in rest <==> other in pending) && (other in rest ==> rest[other] == pending[other]))
  {
    hide Hex;
  }

  // ----- a challenge after the server's proof

  /** The client's side of an exchange: the session of the challenge, and the entry marked by the server's proof. */
  function Opened(p: Primitives, info: AccessInfo, assists: Assists, salt: Bytes32, count: int, clientNonce: Bytes32,
                  serverNonce: Bytes32): Assists
    requires StartAllowed(info)
  {
    var d := Hex(info.deviceID.value);
    if d in assists
    then assists[d := assists[d].(session := Some(H.RunSession(p, info, clientNonce, salt, count, serverNonce)))]
    else assists
  }

  function Marked(info: AccessInfo, assists: Assists): Assists
    requires StartAllowed(info)
  {
    var d := Hex(info.deviceID.value);
    if d in assists then assists[d := Verified(assists[d])] else assists
  }

  /** A server proof can come before another challenge. The client answers that one too; then it hands out the
      session with the new nonce, which nothing has verified. */
  lemma LateChallengeReplaces(p: Primitives, c: Cipher, db: SP.Database, s: Client, info: AccessInfo, salt: Bytes32,
                              count: int, clientNonce: Bytes32, serverNonce: Bytes32, other: Bytes32)
    requires StartAllowed(info) && H.Enrolled(p, c, db, info, salt, count) && 0 < count < 65536
    ensures
      var id, key := info.deviceID.value, p.pbkdf2(info.quantumKey.value, salt, count);
      var record := W.Record(info, clientNonce, salt, count, serverNonce);
      var started := Do(p, c, s, Start(info, clientNonce));
      var calls := [Receive(W.Challenge(c, info, salt, count, serverNonce)),
                    Receive(W.ServerProof(p, c, info, key, record)),
                    Receive(W.Challenge(c, info, salt, count, other))];
      Collected(After(p, c, started, calls).pending, id).0 ==
      Returned(Some(ClientSession(id, W.SessionId(clientNonce, other),
                                  p.hmac(key, W.Record(info, clientNonce, salt, count, other)))))
  {
    hide Hex, H.Enrolled, H.Started, H.RunInfo, H.RunSession, RootsAfter, StartMessage, Restarted, Step, W.Challenge,
      W.ServerProof, W.Record, W.SessionId, After, Opened, Marked;
    var key := p.pbkdf2(info.quantumKey.value, salt, count);
    var record := W.Record(info, clientNonce, salt, count, serverNonce);
    var roots, a := RootsAfter(s.roots, StartMessage(info, clientNonce)), Restarted(s.pending, info, clientNonce);
    var x, y, z := Receive(W.Challenge(c, info, salt, count, serverNonce)),
      Receive(W.ServerProof(p, c, info, key, record)), Receive(W.Challenge(c, info, salt, count, other));
    W.RecordIs(info, clientNonce, salt, count, serverNonce);
    W.RecordIs(info, clientNonce, salt, count, other);
    H.StartedAfter(p, c, db, info, s.roots, s.pending, salt, count, clientNonce);
    assert H.WireKey(p, info, salt, count) == key;
    ChallengeOpens(p, c, db, info, roots, a, salt, count, clientNonce, serverNonce);
    var b := Opened(p, info, a, salt, count, clientNonce, serverNonce);
    ProofMarks(p, c, db, info, roots, a, salt, count, clientNonce, serverNonce);
    ChallengeOpens(p, c, db, info, roots, Marked(info, b), salt, count, clientNonce, other);
    ThreeCalls(p, c, Client(roots, a), x, y, z);
    LateSession(p, info, a, salt, count, clientNonce, serverNonce, other, c, db, roots);
    W.SessionParts(p, info, salt, count, clientNonce, other);
  }

  lemma ThreeCalls(p: Primitives, c: Cipher, s: Client, x: Call, y: Call, z: Call)
    ensures After(p, c, s, [x, y, z]) == Do(p, c, Do(p, c, Do(p, c, s, x), y), z)
  {
    hide Do, After;
    OneMore(p, c, s, [], x);
    OneMore(p, c, s, [x], y);
    OneMore(p, c, s, [x, y], z);
    assert [] + [x] == [x] && [x] + [y] == [x, y] && [x, y] + [z] == [x, y, z];
    NoCalls(p, c, s);
  }

  lemma NoCalls(p: Primitives, c: Cipher, s: Client)
    ensures After(p, c, s, []) == s
  {}

  lemma OneMore(p: Primitives, c: Cipher, s: Client, calls: seq<Call>, x: Call)
    ensures After(p, c, s, calls + [x]) == Do(p, c, After(p, c, s, calls), x)
  {
    hide Do;
    var n := |calls|;
    assert (calls + [x])[..n] == calls && (calls + [x])[n] == x;
  }

  lemma ChallengeOpens(p: Primitives, c: Cipher, db: SP.Database, info: AccessInfo, roots: map<string, Octets>,
                       a: Assists, salt: Bytes32, count: int, clientNonce: Bytes32, serverNonce: Bytes32)
    requires StartAllowed(info) && H.Enrolled(p, c, db, info, salt, count) && 0 < count < 65536
    requires H.Started(c, db, info, roots, a, clientNonce)
    ensures
      var b := Opened(p, info, a, salt, count, clientNonce, serverNonce);
      && Step(p, c, roots, a, W.Challenge(c, info, salt, count, serverNonce)).pending == b
      && H.Started(c, db, info, roots, b, clientNonce)
  {
    hide Hex, H.Enrolled, H.Started, H.RunInfo, H.RunSession, Step, W.Challenge, SP.Wrap, H.ChallengeFor, H.ProofFor,
      W.SharesKey, ProofOf, ChallengeBody, Wrap, StartMessage;
    var request, r := H.ChallengeSent(p, c, db, info, roots, map[], salt, count, clientNonce, serverNonce);
    W.Sharing(p, c, db, info, roots, a, salt, count, clientNonce);
    W.ChallengeBytes(c, db, info, r, salt, count, serverNonce);
    var f, m, g := H.ProofSent(p, c, db, info, roots, a, r, salt, count, clientNonce, serverNonce);
    H.StartedStays(c, db, info, roots, a, clientNonce, H.RunSession(p, info, clientNonce, salt, count, serverNonce));
  }

  lemma ProofMarks(p: Primitives, c: Cipher, db: SP.Database, info: AccessInfo, roots: map<string, Octets>,
                   a: Assists, salt: Bytes32, count: int, clientNonce: Bytes32, serverNonce: Bytes32)
    requires StartAllowed(info) && H.Enrolled(p, c, db, info, salt, count) && 0 < count < 65536
    requires H.Started(c, db, info, roots, a, clientNonce)
    ensures
      var b := Opened(p, info, a, salt, count, clientNonce, serverNonce);
      var key, run := H.WireKey(p, info, salt, count), H.RunInfo(info, clientNonce, salt, count, serverNonce);
      && Step(p, c, roots, b, W.ServerProof(p, c, info, key, run)).pending == Marked(info, b)
      && H.Started(c, db, info, roots, Marked(info, b), clientNonce)
  {
    hide Hex, H.Enrolled, H.Started, H.RunInfo, H.RunSession, Step, W.ServerProof, SP.Wrap, W.SharesKey, ProofBody,
      Wrap, StartMessage, Frames.Answerable;
    var request, r := H.ChallengeSent(p, c, db, info, roots, map[], salt, count, clientNonce, serverNonce);
    var key, run := H.WireKey(p, info, salt, count), H.RunInfo(info, clientNonce, salt, count, serverNonce);
    var q := r.(messageType := SERVER_PROOF);
    assert Frames.Answerable(q) by { StillAnswerable(r); }
    var s := H.RunSession(p, info, clientNonce, salt, count, serverNonce);
    var b := Opened(p, info, a, salt, count, clientNonce, serverNonce);
    W.Sharing(p, c, db, info, roots, a, salt, count, clientNonce);
    W.SessionParts(p, info, salt, count, clientNonce, serverNonce);
    W.ServerProofBytes(p, c, db, info, q, key, run);
    H.StartedStays(c, db, info, roots, a, clientNonce, s);
    var f := H.ServerVerified(p, c, db, info, roots, b, q, clientNonce, s, s.sessionKey);
    MarkedStarted(c, db, info, roots, b, clientNonce);
  }

  lemma StillAnswerable(r: Message)
    requires Frames.Answerable(r)
    ensures Frames.Answerable(r.(messageType := SERVER_PROOF))
  {}

  lemma MarkedStarted(c: Cipher, db: SP.Database, info: AccessInfo, roots: map<string, Octets>, a: Assists,
                      clientNonce: Bytes32)
    requires StartAllowed(info) && H.Started(c, db, info, roots, a, clientNonce)
    ensures H.Started(c, db, info, roots, Marked(info, a), clientNonce)
  {
    hide Hex, RootKey, Cipher.Serves;
  }

  lemma LateSession(p: Primitives, info: AccessInfo, a: Assists, salt: Bytes32, count: int, clientNonce: Bytes32,
                    serverNonce: Bytes32, other: Bytes32, c: Cipher, db: SP.Database, roots: map<string, Octets>)
    requires StartAllowed(info) && H.Started(c, db, info, roots, a, clientNonce)
    ensures
      var b := Marked(info, Opened(p, info, a, salt, count, clientNonce, serverNonce));
      Collected(Opened(p, info, b, salt, count, clientNonce, other), info.deviceID.value).0 ==
      Returned(Some(H.RunSession(p, info, clientNonce, salt, count, other)))
  {
    hide Hex, H.RunSession;
    H.StartedEntry(c, db, info, roots, a, clientNonce);
    hide H.Started;
  }
}
