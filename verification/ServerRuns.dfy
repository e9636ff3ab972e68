/** Every run of the server: any frames, from any devices, in any order. */
module ServerRuns {
  import opened BlockModes
  import opened Bytes
  import opened JavaBytes
  import opened PassCryp
  import opened Messages
  import opened Algorithms
  import opened ServerPackets
  import opened ServerProcessor
  import Client = ClientProcessor
  import Frames
  import H = Handshake

  /** One received frame, and the nonce drawn for it. */
  datatype Event = Event(frame: Octets, nonce: Bytes32)

  function Final(p: Primitives, c: Cipher, db: Database, pending: map<string, Octets>,
                 events: seq<Event>): map<string, Octets>
    decreases |events|
  {
    if events == [] then pending
    else Final(p, c, db, Step(p, c, db, pending, events[0].frame, events[0].nonce).pending, events[1..])
  }

  /** The device a frame names, as the map key. */
  function Named(c: Cipher, db: Database, f: Octets): Option<string> {
    match Unwrap(c, db.rootKeys, f)
    case Thrown => None
    case Returned(m) => if m.deviceID.Some? then Some(Hex(m.deviceID.value)) else None
  }

  // ----- one step concerns one device

  /** A step leaves the entries of all devices alone but the one it names. */
  lemma StepTouchesNamed(p: Primitives, c: Cipher, db: Database, pending: map<string, Octets>, e: Event, d: string)
    requires Named(c, db, e.frame) != Some(d)
    ensures SameEntry(pending, Step(p, c, db, pending, e.frame, e.nonce).pending, d)
  {
    hide Hex, Unhex, Unwrap, Wrap, Check, AuthInfo, StatusFrame;
  }

  predicate SameEntry(x: map<string, Octets>, y: map<string, Octets>, d: string) {
    (d in x <==> d in y) && (d in x && d in y ==> x[d] == y[d])
  }

  /** In terms of device ids: different ids have different entries, because their hexadecimal forms differ. */
  lemma OtherDeviceUntouched(p: Primitives, c: Cipher, db: Database, pending: map<string, Octets>, e: Event, m: Message,
                             other: Octets)
    requires Unwrap(c, db.rootKeys, e.frame) == Returned(m) && m.deviceID != Some(other)
    ensures SameEntry(pending, Step(p, c, db, pending, e.frame, e.nonce).pending, Hex(other))
  {
    hide Hex, Unwrap, Step;
    if m.deviceID.Some? && Hex(m.deviceID.value) == Hex(other) {
      HexInjective(m.deviceID.value, other);
    }
    StepTouchesNamed(p, c, db, pending, e, Hex(other));
  }

  /** What a step answers, and what it leaves for the device it names, depend on that device's entry alone. */
  lemma StepLocal(p: Primitives, c: Cipher, db: Database, x: map<string, Octets>, y: map<string, Octets>, e: Event,
                  d: string)
    requires Named(c, db, e.frame) == Some(d) && SameEntry(x, y, d)
    ensures
      var sx, sy := Step(p, c, db, x, e.frame, e.nonce), Step(p, c, db, y, e.frame, e.nonce);
      sx.reply == sy.reply && SameEntry(sx.pending, sy.pending, d)
  {
    hide Unwrap, Hex, ProofStep, RequestStep;
    var m := Unwrap(c, db.rootKeys, e.frame).value;
    RequestLocal(c, db, x, y, m, e.nonce, d);
    ProofLocal(p, c, db, x, y, m, d);
  }

  lemma RequestLocal(c: Cipher, db: Database, x: map<string, Octets>, y: map<string, Octets>, m: Message,
                     nonce: Bytes32, d: string)
    requires m.deviceID.Some? && d == Hex(m.deviceID.value) && SameEntry(x, y, d)
    ensures RequestStep(c, db, x, m, nonce).0 == RequestStep(c, db, y, m, nonce).0
    ensures SameEntry(RequestStep(c, db, x, m, nonce).1, RequestStep(c, db, y, m, nonce).1, d)
  {
    hide Hex, Wrap, AuthInfo, StatusFrame, WithChallenge, ChallengeOf;
  }

  lemma ProofLocal(p: Primitives, c: Cipher, db: Database, x: map<string, Octets>, y: map<string, Octets>,
                   m: Message, d: string)
    requires m.deviceID.Some? && d == Hex(m.deviceID.value) && SameEntry(x, y, d)
    ensures ProofStep(p, c, db, x, m).reply == ProofStep(p, c, db, y, m).reply
    ensures SameEntry(ProofStep(p, c, db, x, m).pending, ProofStep(p, c, db, y, m).pending, d)
  {
    hide Hex, Unhex, Wrap, StatusFrame, CheckProof, ProofBody;
  }

  /** The events that name a device. */
  function For(c: Cipher, db: Database, events: seq<Event>, d: string): seq<Event>
    decreases |events|
  {
    if events == [] then []
    else (if Named(c, db, events[0].frame) == Some(d) then [events[0]] else []) + For(c, db, events[1..], d)
  }

  /** The answers to the events that name a device, in a run with all events. */
  function Answers(p: Primitives, c: Cipher, db: Database, pending: map<string, Octets>, events: seq<Event>, d: string)
    : seq<Outcome<Reply>>
    decreases |events|
  {
    if events == [] then []
    else
      var s := Step(p, c, db, pending, events[0].frame, events[0].nonce);
      (if Named(c, db, events[0].frame) == Some(d) then [s.reply]
       else []) + Answers(p, c, db, s.pending, events[1..], d)
  }

  /** Devices do not interfere: in every interleaving a device gets the answers, and is left with the entry,
      that its own frames alone would have given it. */
  lemma {:induction false} NonInterference(p: Primitives, c: Cipher, db: Database, x: map<string, Octets>,
                                           y: map<string, Octets>,
                                           events: seq<Event>, d: string)
    requires SameEntry(x, y, d)
    ensures Answers(p, c, db, x, events, d) == Answers(p, c, db, y, For(c, db, events, d), d)
    ensures SameEntry(Final(p, c, db, x, events), Final(p, c, db, y, For(c, db, events, d)), d)
    decreases |events|
  {
    hide Step, Named, SameEntry;
    if events != [] {
      var e, rest := events[0], events[1..];
      var s := Step(p, c, db, x, e.frame, e.nonce);
      if Named(c, db, e.frame) == Some(d) {
        StepLocal(p, c, db, x, y, e, d);
        NonInterference(p, c, db, s.pending, Step(p, c, db, y, e.frame, e.nonce).pending, rest, d);
        assert For(c, db, events, d)[1..] == For(c, db, rest, d);
      } else {
        StepTouchesNamed(p, c, db, x, e, d);
        SameEntryChain(s.pending, x, y, d);
        NonInterference(p, c, db, s.pending, y, rest, d);
        assert For(c, db, events, d) == For(c, db, rest, d);
      }
    }
  }

  lemma SameEntryChain(z: map<string, Octets>, x: map<string, Octets>, y: map<string, Octets>, d: string)
    requires SameEntry(x, z, d) && SameEntry(x, y, d)
    ensures SameEntry(z, y, d)
  {}

  predicate Unnamed(c: Cipher, db: Database, events: seq<Event>, d: string) {
    forall e :: e in events ==> Named(c, db, e.frame) != Some(d)
  }

  /** A run in which no frame names a device leaves its entry alone. */
  lemma {:induction false} RunTouchesNamed(p: Primitives, c: Cipher, db: Database, x: map<string, Octets>,
                                           events: seq<Event>, d: string)
    requires Unnamed(c, db, events, d)
    ensures SameEntry(x, Final(p, c, db, x, events), d)
    decreases |events|
  {
    hide Step, Named;
    if events != [] {
      var e := events[0];
      StepTouchesNamed(p, c, db, x, e, d);
      RunTouchesNamed(p, c, db, Step(p, c, db, x, e.frame, e.nonce).pending, events[1..], d);
    }
  }

  /** What one device's entry is at the start makes no difference to the entries of the others at the end. */
  lemma OthersAlike(p: Primitives, c: Cipher, db: Database, x: map<string, Octets>, y: map<string, Octets>,
                    events: seq<Event>, d: string)
    requires x - {d} == y - {d}
    ensures Final(p, c, db, x, events) - {d} == Final(p, c, db, y, events) - {d}
  {
    hide Final, For, SameEntry;
    var fx, fy := Final(p, c, db, x, events), Final(p, c, db, y, events);
    forall o | o != d ensures SameEntry(fx, fy, o) {
      AlikeAt(x, y, d, o);
      NonInterference(p, c, db, x, y, events, o);
      NonInterference(p, c, db, y, y, events, o);
      SameEntryMeet(fx, Final(p, c, db, y, For(c, db, events, o)), fy, o);
    }
    AlikeBut(fx, fy, d);
  }

  lemma AlikeAt(x: map<string, Octets>, y: map<string, Octets>, d: string, o: string)
    requires x - {d} == y - {d} && o != d
    ensures SameEntry(x, y, o) && SameEntry(y, y, o)
  {
    assert (o in x - {d} <==> o in y - {d}) && (o in x - {d} ==> (x - {d})[o] == (y - {d})[o]);
  }

  lemma SameEntryMeet(x: map<string, Octets>, z: map<string, Octets>, y: map<string, Octets>, d: string)
    requires SameEntry(x, z, d) && SameEntry(y, z, d)
    ensures SameEntry(x, y, d)
  {}

  lemma AlikeBut(x: map<string, Octets>, y: map<string, Octets>, d: string)
    requires forall o :: o != d ==> SameEntry(x, y, o)
    ensures x - {d} == y - {d}
  {
    var u, v := x - {d}, y - {d};
    forall o ensures (o in u <==> o in v) && (o in u ==> u[o] == v[o]) {
      assert o != d ==> SameEntry(x, y, o);
    }
  }

  /** A handshake with frames of other devices between the two of the device. */
  function DeliverAmong(p: Primitives, c: Cipher, db: Database, info: Client.AccessInfo, roots: map<string, Octets>,
                        assists: Client.Assists, stored: map<string, Octets>, between: seq<Event>,
                        clientNonce: Bytes32, serverNonce: Bytes32, unused: Bytes32): Option<H.Run>
    requires Client.StartAllowed(info)
  {
    match H.Deliver1(p, c, db, info, roots, assists, stored, clientNonce, serverNonce)
    case None => None
    case Some(half) =>
      H.Deliver2(p, c, db, H.CP.RootsAfter(roots, Client.StartMessage(info, clientNonce)), half.assists,
                 Final(p, c, db, half.stored, between), half.proof, unused)
  }

  /** It ends exactly if it ends undisturbed, whatever the server stored before and whatever the others send; both
      sides then hold the one session, and the others have the entries that they would have without it. */
  lemma CompletenessAmong(p: Primitives, c: Cipher, db: Database, info: Client.AccessInfo, roots: map<string, Octets>,
                          assists: Client.Assists, stored: map<string, Octets>, between: seq<Event>, salt: Bytes32,
                          count: int, clientNonce: Bytes32, serverNonce: Bytes32, unused: Bytes32)
    requires Client.StartAllowed(info) && H.Enrolled(p, c, db, info, salt, count)
    requires Unnamed(c, db, between, Hex(info.deviceID.value))
    ensures
      var run := DeliverAmong(p, c, db, info, roots, assists, stored, between, clientNonce, serverNonce, unused);
      && (run.Some? <==> count % 65536 != 0 && H.Matches(p, info, clientNonce, salt, count, serverNonce))
      && (run.Some? && H.SameHash(p, info, salt, count) ==>
            H.Finished(p, info, run.value, Final(p, c, db, stored, between), salt, count, clientNonce, serverNonce))
  {
    hide Hex, H.Enrolled, H.Started, H.RunInfo, H.RunSession, H.Matches, H.SameHash, H.Finished, H.Deliver1,
      H.Deliver2, H.ProofArrives, Final, Unnamed, H.CP.RootsAfter, Client.StartMessage, Client.Restarted;
    if count % 65536 == 0 {
      H.NoneWithoutCount(p, c, db, info, roots, assists, stored, salt, count, clientNonce, serverNonce, unused);
    } else {
      var d, after := Hex(info.deviceID.value), H.CP.RootsAfter(roots, Client.StartMessage(info, clientNonce));
      var m := H.HalfDelivered(p, c, db, info, roots, assists, stored, salt, count, clientNonce, serverNonce);
      var half := H.Deliver1(p, c, db, info, roots, assists, stored, clientNonce, serverNonce).value;
      var x, y := Final(p, c, db, half.stored, between), Final(p, c, db, stored, between);
      RunTouchesNamed(p, c, db, half.stored, between, d);
      assert half.stored - {d} == stored - {d};
      OthersAlike(p, c, db, half.stored, stored, between, d);
      ArrivesToo(p, c, db, info, after, half.stored, x, m, half.proof, salt, count, clientNonce, serverNonce);
      H.ProofDelivered(p, c, db, info, after, assists, x, m, half.proof, salt, count, clientNonce, serverNonce, unused);
      FinishedToo(p, info, x, y, salt, count, clientNonce, serverNonce);
    }
  }

  lemma ArrivesToo(p: Primitives, c: Cipher, db: Database, info: Client.AccessInfo, roots: map<string, Octets>,
                   x: map<string, Octets>, y: map<string, Octets>, m: Message, g: Octets, salt: Bytes32, count: int,
                   clientNonce: Bytes32, serverNonce: Bytes32)
    requires Client.StartAllowed(info) && SameEntry(x, y, Hex(info.deviceID.value))
    requires H.ProofArrives(p, c, db, info, roots, x, m, g, salt, count, clientNonce, serverNonce)
    ensures H.ProofArrives(p, c, db, info, roots, y, m, g, salt, count, clientNonce, serverNonce)
    ensures y == y[Hex(info.deviceID.value) := H.RunInfo(info, clientNonce, salt, count, serverNonce)]
  {
    hide Hex, H.RunInfo, H.CP.Wrap, H.ProofFor, Client.ProofOf;
  }

  lemma FinishedToo(p: Primitives, info: Client.AccessInfo, x: map<string, Octets>, y: map<string, Octets>,
                    salt: Bytes32, count: int, clientNonce: Bytes32, serverNonce: Bytes32)
    requires Client.StartAllowed(info) && x - {Hex(info.deviceID.value)} == y - {Hex(info.deviceID.value)}
    ensures forall run ::
              H.Finished(p, info, run, x, salt, count, clientNonce, serverNonce) ==>
                H.Finished(p, info, run, y, salt, count, clientNonce, serverNonce)
  {
    hide Hex, H.SessionOfRun, H.RunSession, Client.Collected;
  }

  // ----- sessions are paid for by challenges

  /** The step stores a challenge for `d`. */
  predicate StoresFor(c: Cipher, db: Database, e: Event, d: string) {
    match Unwrap(c, db.rootKeys, e.frame)
    case Thrown => false
    case Returned(m) =>
      && m.messageType == ACCESS_AUTH_REQ && m.status == SUCCESS
      && m.deviceID.Some? && Hex(m.deviceID.value) == d && d in db.challenges
      && AuthInfo(WithChallenge(m, db.challenges[d], e.nonce)).Returned?
  }

  predicate GrantsFor(s: Stepped, d: string) {
    s.reply.Returned? && s.reply.value.session.Some? && s.reply.value.session.value.deviceId == d
  }

  /** The step settles the challenge of `d`: it accepts or rejects a proof for it. */
  predicate SettlesFor(c: Cipher, db: Database, pending: map<string, Octets>, e: Event, s: Stepped, d: string) {
    match Unwrap(c, db.rootKeys, e.frame)
    case Thrown => false
    case Returned(m) =>
      && m.messageType != ACCESS_AUTH_REQ && m.status == SUCCESS
      && m.deviceID.Some? && Hex(m.deviceID.value) == d && d in pending && s.reply.Returned?
  }

  function Stores(c: Cipher, db: Database, events: seq<Event>, d: string): nat
    decreases |events|
  {
    if events == [] then 0 else (if StoresFor(c, db, events[0], d) then 1 else 0) + Stores(c, db, events[1..], d)
  }

  /** How many challenges of `d` a run settles, and how many of its steps grant `d` a session. */
  function Counts(p: Primitives, c: Cipher, db: Database, pending: map<string, Octets>, events: seq<Event>, d: string)
    : (nat, nat)
    decreases |events|
  {
    if events == [] then (0, 0)
    else
      var s := Step(p, c, db, pending, events[0].frame, events[0].nonce);
      var rest := Counts(p, c, db, s.pending, events[1..], d);
      ((if SettlesFor(c, db, pending, events[0], s, d) then 1 else 0) + rest.0,
       (if GrantsFor(s, d) then 1 else 0) + rest.1)
  }

  function Held(pending: map<string, Octets>, d: string): nat { if d in pending then 1 else 0 }

  /** A session is granted only by settling a stored challenge; settling uses the challenge up; nothing but a
      stored challenge adds an entry. */
  lemma StepAccounts(p: Primitives, c: Cipher, db: Database, pending: map<string, Octets>, e: Event, d: string)
    ensures
      var s := Step(p, c, db, pending, e.frame, e.nonce);
      && (GrantsFor(s, d) ==> SettlesFor(c, db, pending, e, s, d))
      && (SettlesFor(c, db, pending, e, s, d) ==> d in pending && d !in s.pending && !StoresFor(c, db, e, d))
      && (d in s.pending && !StoresFor(c, db, e, d) ==> d in pending)
  {
    hide Unwrap, Hex, ProofStep;
    if Unwrap(c, db.rootKeys, e.frame).Returned? {
      var m := Unwrap(c, db.rootKeys, e.frame).value;
      GrantDevice(p, c, db, pending, m);
    }
    hide Wrap, AuthInfo, StatusFrame, WithChallenge, ChallengeOf;
  }

  /** A granted session is for the device whose challenge was removed; an answered proof removes it too. */
  lemma GrantDevice(p: Primitives, c: Cipher, db: Database, pending: map<string, Octets>, m: Message)
    ensures
      var s := ProofStep(p, c, db, pending, m);
      && s.pending.Keys <= pending.Keys
      && (s.reply.Returned? && m.status == SUCCESS ==> m.deviceID.Some? && Hex(m.deviceID.value) !in s.pending)
      && (s.reply.Returned? && s.reply.value.session.Some? ==>
            && m.status == SUCCESS && m.deviceID.Some? && Hex(m.deviceID.value) in pending
            && s.reply.value.session.value.deviceId == Hex(m.deviceID.value))
  {
    hide Hex, Unhex, Wrap, StatusFrame, ProofBody, GetXor, Crypted;
  }

  /** Over every run: sessions are granted only by settling challenges, and the challenges settled for a device
      with its pending one (0 or 1) never exceed the challenges stored for it. So there is at most one verdict,
      and at most one session, for each challenge. */
  lemma {:induction false} GrantsBounded(p: Primitives, c: Cipher, db: Database, pending: map<string, Octets>,
                                         events: seq<Event>, d: string)
    ensures
      var (settled, granted) := Counts(p, c, db, pending, events, d);
      && granted <= settled
      && settled + Held(Final(p, c, db, pending, events), d) <= Stores(c, db, events, d) + Held(pending, d)
    decreases |events|
  {
    hide Step, StoresFor, GrantsFor, SettlesFor;
    if events != [] {
      var e := events[0];
      StepAccounts(p, c, db, pending, e, d);
      GrantsBounded(p, c, db, Step(p, c, db, pending, e.frame, e.nonce).pending, events[1..], d);
    }
  }

  // ----- what a stored challenge is

  /** The message of a request, with the salt and count of the device's row and the nonce of the step. */
  function Sent(c: Cipher, db: Database, e: Event, d: string): Message
    requires StoresFor(c, db, e, d)
  {
    WithChallenge(Unwrap(c, db.rootKeys, e.frame).value, db.challenges[d], e.nonce)
  }

  /** Lengths that appendAuthInfo accepts are the true ones. */
  lemma UnwrappedName(c: Cipher, rootKeys: map<Octets, Octets>, f: Octets, m: Message)
    requires Unwrap(c, rootKeys, f) == Returned(m) && m.status == SUCCESS
    ensures m.deviceID.Some? && (0 <= m.deviceIDLength <= |m.deviceID.value| ==> m.deviceIDLength == |m.deviceID.value|)
  {
    hide Signed, CrcMatches, BeValue, Crypted;
  }

  /** A step leaves for `d` what it stores for it, or what was there. */
  lemma StepEntry(p: Primitives, c: Cipher, db: Database, pending: map<string, Octets>, e: Event, d: string)
    requires d in Step(p, c, db, pending, e.frame, e.nonce).pending
    ensures
      var entry := Step(p, c, db, pending, e.frame, e.nonce).pending[d];
      if StoresFor(c, db, e, d) then entry == AuthInfo(Sent(c, db, e, d)).value else d in pending && entry == pending[d]
  {
    hide Unwrap, Hex, Unhex, Wrap, Check, AuthInfo, StatusFrame, WithChallenge, ChallengeOf, ProofBody;
  }

  /** In every reachable state the record stored for a device is the one of the last request that stored one:
      its name, the nonce read off that frame, salt and count of its row, and the nonce drawn for that frame. */
  lemma {:induction false} ChallengeOrigin(p: Primitives, c: Cipher, db: Database, pending: map<string, Octets>,
                                           events: seq<Event>, d: string) returns (k: int)
    requires d in Final(p, c, db, pending, events)
    ensures -1 <= k < |events| && forall j :: k < j < |events| ==> !StoresFor(c, db, events[j], d)
    ensures
      var record := Final(p, c, db, pending, events)[d];
      if k == -1 then d in pending && record == pending[d]
      else StoresFor(c, db, events[k], d) && record == AuthInfo(Sent(c, db, events[k], d)).value
    decreases |events|
  {
    hide Step, StoresFor, Sent, AuthInfo;
    k := -1;
    if events != [] {
      var e, rest := events[0], events[1..];
      var after := Step(p, c, db, pending, e.frame, e.nonce).pending;
      var i := ChallengeOrigin(p, c, db, after, rest, d);
      if i >= 0 {
        k := i + 1;
      } else {
        StepEntry(p, c, db, pending, e, d);
        k := if StoresFor(c, db, e, d) then 0 else -1;
      }
      assert forall j :: 1 <= j < |events| ==> events[j] == rest[j - 1];
    }
  }

  /** A stored record is 98 bytes longer than the name. */
  lemma SentParts(c: Cipher, db: Database, e: Event, d: string)
    requires StoresFor(c, db, e, d)
    ensures
      var m, sent := Unwrap(c, db.rootKeys, e.frame).value, Sent(c, db, e, d);
      && sent.deviceID == m.deviceID && sent.clientNonce == m.clientNonce && sent.serverNonce == Some(e.nonce)
      && sent.salt == Some(Crypted(db.challenges[d].salt)) && sent.iterationCount == db.challenges[d].iterationCount
      && sent.deviceID.Some? && Hex(sent.deviceID.value) == d && sent.deviceIDLength == |sent.deviceID.value|
      && AuthInfo(sent).Returned? && |AuthInfo(sent).value| == |sent.deviceID.value| + 98
      && sent.clientNonce.Some? && |sent.clientNonce.value| >= 32 && |sent.salt.value| >= 32
  {
    hide Unwrap, Hex, Crypted, LittleEndianShort;
    UnwrappedName(c, db.rootKeys, e.frame, Unwrap(c, db.rootKeys, e.frame).value);
  }

  /** Agreement after any run of a server that started empty: a proof that is accepted, made with the enrolled
      key, comes from a client with the stored name, nonces, salt and count, and both derive one session. The
      exchange is that of the device's last request to be challenged, event `k`. */
  lemma AcceptedProofAgrees(p: Primitives, c: Cipher, db: Database, events: seq<Event>, a: Client.Assist, m: Message,
                            d: string, s: Session) returns (k: int)
    requires Client.Prove(p, a, m).Returned?
    requires d in db.challenges && db.challenges[d].iterationCount >= 0
    requires
      var pending := Final(p, c, db, map[], events);
      d in pending && H.Accepts(p, db, pending, d, pending[d], a, m, s)
    ensures 0 <= k < |events| && StoresFor(c, db, events[k], d)
    ensures forall j :: k < j < |events| ==> !StoresFor(c, db, events[j], d)
    ensures m.deviceID.Some? && m.salt.Some? && |m.salt.value| >= 32 && |db.challenges[d].salt| >= 32
    ensures m.serverNonce.Some? && |a.clientNonce| >= 32 && |m.serverNonce.value| >= 32
    ensures
      var read := Unwrap(c, db.rootKeys, events[k].frame).value;
      && m.deviceID == read.deviceID && Hex(m.deviceID.value) == d
      && read.clientNonce.Some? && |read.clientNonce.value| >= 32
      && a.clientNonce[..32] == read.clientNonce.value[..32] && m.serverNonce.value[..32] == events[k].nonce
    ensures H.ClientInfo(a, m) == Final(p, c, db, map[], events)[d]
    ensures m.salt.value[..32] == Crypted(db.challenges[d].salt)[..32]
    ensures m.iterationCount % 65536 == db.challenges[d].iterationCount % 65536
    ensures
      var mine := Client.Prove(p, a, m).value.assist.session.value;
      s == Session(Hex(mine.username), Hex(mine.sessionID), mine.sessionKey)
  {
    hide Final, Hex, Crypted, AuthInfo, StoresFor, Sent, Unwrap, Client.Prove, H.Accepts;
    var pending := Final(p, c, db, map[], events);
    k := ChallengeOrigin(p, c, db, map[], events, d);
    SentParts(c, db, events[k], d);
    var sent := Sent(c, db, events[k], d);
    H.ServerInfo(sent);
    H.Agreement(p, db, pending, sent, a, m, s);
    assert events[k].nonce[..32] == events[k].nonce;
  }

  // ----- when a proof uses up its challenge

  /** The recovered key has the stored hash. */
  predicate Passes(p: Primitives, password: Octets, record: Octets, proof: Octets)
    requires |proof| <= 32
  {
    p.sha256(XorBytes(proof, p.hmac(password, record))) == password
  }

  /** An unknown password settles the challenge with a rejection. Otherwise the proof must not be longer than
      the HMAC it is added to, and neither HMAC may be asked for under an empty key. A proof that passes is
      answered only if the name is at least as long as its length byte says. */
  predicate UsesUp(p: Primitives, db: Database, d: string, record: Octets, nameFits: bool, proof: Octets) {
    d in db.passwords ==>
      var password := Crypted(db.passwords[d]);
      if proof == [] then p.sha256([]) != password
      else password != [] && |proof| <= 32 && (nameFits || !Passes(p, password, record, proof))
  }

  predicate NameFits(m: Message)
    requires m.deviceID.Some?
  {
    0 <= m.deviceIDLength <= |m.deviceID.value|
  }

  /** A proof for a stored challenge is answered, and the challenge removed, exactly under that condition;
      otherwise the step throws and the challenge stays. */
  lemma ChallengeUsedUp(p: Primitives, c: Cipher, db: Database, pending: map<string, Octets>, m: Message)
    requires m.status == SUCCESS && m.deviceID.Some? && m.clientProof.Some?
    requires m.encryptionAlgorithm == ENCRYPTION_ALGORITHM_AES ==> m.encryptionKeyID.Some?
    requires
      var d := Hex(m.deviceID.value);
      d in pending && |pending[d]| >= |m.deviceID.value| + 32
    ensures
      var d, s := Hex(m.deviceID.value), ProofStep(p, c, db, pending, m);
      && (d !in s.pending <==> UsesUp(p, db, d, pending[d], NameFits(m), m.clientProof.value))
      && (s.reply.Thrown? <==> d in s.pending) && (d in s.pending ==> s.pending == pending)
  {
    hide Hex, Unhex, StatusFrame, ProofBody, Crypted, CheckProof, SessionOf, Wrap, Passes;
    var d, proof := Hex(m.deviceID.value), m.clientProof.value;
    WrapAnswers(c, db, m);
    if d in db.passwords {
      CheckThrows(p, Crypted(db.passwords[d]), pending[d], proof, d);
      CheckAccepts(p, Crypted(db.passwords[d]), pending[d], proof, d);
    }
  }

  lemma WrapAnswers(c: Cipher, db: Database, m: Message)
    requires m.encryptionAlgorithm == ENCRYPTION_ALGORITHM_AES ==> m.encryptionKeyID.Some?
    ensures forall body :: Wrap(c, db.rootKeys, m.(messageType := SERVER_PROOF), body).Returned?
  {
    hide StatusFrame, Sealing, Crypted;
  }

  lemma CheckThrows(p: Primitives, password: Octets, info: Octets, proof: Octets, d: string)
    requires |info| >= |d| / 2 + 32
    ensures CheckProof(p, password, info, proof, d).Thrown? <==>
            if proof == [] then p.sha256([]) == password else password == [] || |proof| > 32
  {
    hide XorBytes, Hex;
    if password != [] && |proof| <= 32 {
      var h := p.hmac(password, info);
      var key := XorBytes(proof[..|proof|], h[..|proof|]);
      assert |key| == |proof|;
      SessionThrows(p, key, info, d);
      hide SessionOf;
      assert proof == [] ==> key == [];
    }
  }

  lemma CheckAccepts(p: Primitives, password: Octets, info: Octets, proof: Octets, d: string)
    ensures
      var r := CheckProof(p, password, info, proof, d);
      r.Returned? ==> if proof == [] then r.value.None? else
        |proof| <= 32 && (r.value.Some? <==> Passes(p, password, info, proof))
  {
    hide XorBytes, Hex;
    if password != [] && |proof| <= 32 {
      var h := p.hmac(password, info);
      var key := XorBytes(proof[..|proof|], h[..|proof|]);
      XorBytesPrefix(proof, h);
      if proof == [] {
        EmptyKey(p, key, info, d);
      }
      hide SessionOf;
    }
  }

  lemma EmptyKey(p: Primitives, key: Octets, info: Octets, d: string)
    requires key == []
    ensures SessionOf(p, key, info, d).Thrown?
  {
    hide XorBytes, Hex;
  }

  lemma XorBytesPrefix(a: Octets, b: Octets)
    requires |a| <= |b|
    ensures XorBytes(a[..|a|], b[..|a|]) == XorBytes(a, b)
  {
    hide XorBytes;
    var x, y := XorBytes(a[..|a|], b[..|a|]), XorBytes(a, b);
    assert forall i :: 0 <= i < |a| ==> x[i] == y[i];
  }

  lemma SessionThrows(p: Primitives, key: Octets, info: Octets, d: string)
    requires |info| >= |d| / 2 + 32
    ensures SessionOf(p, key, info, d).Thrown? <==> key == []
  {
    hide XorBytes, Hex;
  }

  /** In every reachable state, for every proof frame that the server reads. */
  lemma ProofsUseUpChallenges(p: Primitives, c: Cipher, db: Database, events: seq<Event>, e: Event, m: Message)
    requires Unwrap(c, db.rootKeys, e.frame) == Returned(m) && m.messageType == CLIENT_PROOF && m.status == SUCCESS
    requires m.deviceID.Some? && Hex(m.deviceID.value) in Final(p, c, db, map[], events)
    ensures m.clientProof.Some? && (NameFits(m) <==> m.deviceIDLength == |m.deviceID.value|)
    ensures
      var d, pending := Hex(m.deviceID.value), Final(p, c, db, map[], events);
      var s := Step(p, c, db, pending, e.frame, e.nonce);
      && (d !in s.pending <==> UsesUp(p, db, d, pending[d], NameFits(m), m.clientProof.value))
      && (s.reply.Thrown? <==> d in s.pending)
  {
    hide Final, Unwrap, Hex, ProofStep, UsesUp, StoresFor, Sent, AuthInfo;
    var d, pending := Hex(m.deviceID.value), Final(p, c, db, map[], events);
    var k := ChallengeOrigin(p, c, db, map[], events, d);
    SentParts(c, db, events[k], d);
    HexInjective(m.deviceID.value, Sent(c, db, events[k], d).deviceID.value);
    UnwrappedProof(c, db.rootKeys, e.frame, m);
    UnwrappedName(c, db.rootKeys, e.frame, m);
    ChallengeUsedUp(p, c, db, pending, m);
  }

  lemma UnwrappedProof(c: Cipher, rootKeys: map<Octets, Octets>, f: Octets, m: Message)
    requires Unwrap(c, rootKeys, f) == Returned(m) && m.messageType == CLIENT_PROOF && m.status == SUCCESS
    ensures m.clientProof.Some? && (m.encryptionAlgorithm == ENCRYPTION_ALGORITHM_AES ==> m.encryptionKeyID.Some?)
  {
    hide Signed, CrcMatches, BeValue, Crypted, Subarray;
  }

  /** A proof frame in the clear, with a proof of any length. */
  function ProofFrame(id: Octets, proof: Octets): Octets {
    var body := [Narrow(|id|)] + id + proof;
    Frame(CLIENT_PROOF, 120, SUCCESS, 4 + |body|, Header(1, ENCRYPTION_ALGORITHM_DEFAULT, |body|, []) + body)
  }

  lemma ProofFrameRead(c: Cipher, rootKeys: map<Octets, Octets>, id: Octets, proof: Octets) returns (m: Message)
    requires |id| + |proof| <= 122
    ensures Unwrap(c, rootKeys, ProofFrame(id, proof)) == Returned(m)
    ensures m.messageType == CLIENT_PROOF && m.status == SUCCESS
    ensures m.encryptionAlgorithm == ENCRYPTION_ALGORITHM_DEFAULT
    ensures m.deviceID == Some(id) && m.deviceIDLength == |id| && m.clientProof == Some(proof)
  {
    hide Unwrap, UnwrapData, Frame, Header, Narrow, Signed, Subarray;
    var body := [Narrow(|id|)] + id + proof;
    var sent := Blank().(messageType := CLIENT_PROOF, requestID := 120, version := 1);
    Frames.ServerReadsFrame(c, rootKeys, sent, 0, |body|, [], body);
    Frames.ServerReadsPlain(c, rootKeys, sent, body);
    Frames.BodyParts(id, proof);
    m := UnwrapBody(Frames.Typed(sent), 0, body).value;
  }

  /** Frames with proofs of 33 bytes and more, as long as they fit, leave the challenge in place. */
  lemma LongProofKeepsChallenge(p: Primitives, c: Cipher, db: Database, pending: map<string, Octets>, id: Octets,
                                proof: Octets, nonce: Bytes32)
    requires 32 < |proof| && |id| + |proof| <= 122
    requires
      var d := Hex(id);
      d in pending && |pending[d]| >= |id| + 32 && d in db.passwords
    ensures Step(p, c, db, pending, ProofFrame(id, proof), nonce) == Stepped(Thrown, pending)
  {
    hide Unwrap, Hex, ProofStep, ProofFrame;
    var m := ProofFrameRead(c, db.rootKeys, id, proof);
    hide Unhex, Passes;
    ChallengeUsedUp(p, c, db, pending, m);
  }

  /** So it is in every reachable state: after any run, the request of an enrolled device is challenged, and each
      long proof for its name makes the server throw and leaves that challenge pending. */
  lemma ChallengeOutlivesLongProof(p: Primitives, c: Cipher, db: Database, events: seq<Event>, info: Client.AccessInfo,
                                   roots: map<string, Octets>, salt: Bytes32, count: int, clientNonce: Bytes32,
                                   serverNonce: Bytes32, proof: Octets, nonce: Bytes32) returns (request: Octets)
    requires Client.StartAllowed(info) && H.Enrolled(p, c, db, info, salt, count)
    requires 32 < |proof| && |info.deviceID.value| + |proof| <= 122
    ensures H.CP.Wrap(c, roots, Client.StartMessage(info, clientNonce)) == Returned(Some(request))
    ensures
      var d, id := Hex(info.deviceID.value), info.deviceID.value;
      var pending := Final(p, c, db, map[], events + [Event(request, serverNonce)]);
      && d in pending && pending[d] == H.RunInfo(info, clientNonce, salt, count, serverNonce)
      && Step(p, c, db, pending, ProofFrame(id, proof), nonce) == Stepped(Thrown, pending)
  {
    hide Hex, Final, ProofFrame, Step, H.Enrolled, H.CP.Wrap, H.CP.RootsAfter, Client.StartMessage, H.ChallengeFor,
      ChallengeBody, H.RunInfo;
    var r;
    var before := Final(p, c, db, map[], events);
    request, r := H.ChallengeSent(p, c, db, info, roots, before, salt, count, clientNonce, serverNonce);
    FinalSnoc(p, c, db, map[], events, Event(request, serverNonce));
    RowAndRecord(p, c, db, info, salt, count, clientNonce, serverNonce);
    LongProofKeepsChallenge(p, c, db, Final(p, c, db, map[], events + [Event(request, serverNonce)]),
                            info.deviceID.value, proof, nonce);
  }

  lemma RowAndRecord(p: Primitives, c: Cipher, db: Database, info: Client.AccessInfo, salt: Bytes32, count: int,
                     clientNonce: Bytes32, serverNonce: Bytes32)
    requires Client.StartAllowed(info) && H.Enrolled(p, c, db, info, salt, count)
    ensures Hex(info.deviceID.value) in db.passwords
    ensures |H.RunInfo(info, clientNonce, salt, count, serverNonce)| == |info.deviceID.value| + 98
  {
    hide Hex, Crypted, Cipher.Serves;
  }

  lemma {:induction false} FinalSnoc(p: Primitives, c: Cipher, db: Database, x: map<string, Octets>,
                                     events: seq<Event>, e: Event)
    ensures Final(p, c, db, x, events + [e]) == Step(p, c, db, Final(p, c, db, x, events), e.frame, e.nonce).pending
    decreases |events|
  {
    hide Step;
    if events == [] {
      assert [] + [e] == [e] && [e][1..] == [];
    } else {
      FinalSnoc(p, c, db, Step(p, c, db, x, events[0].frame, events[0].nonce).pending, events[1..], e);
      assert (events + [e])[1..] == events[1..] + [e];
    }
  }

  // ----- what a reply carries

  /** The type of the answer, and the fields of the MessageObject. Only a granted reply carries a session and its
      id, which is 16 bytes and reads as the session's in hexadecimal. */
  lemma ReplyFields(p: Primitives, c: Cipher, db: Database, pending: map<string, Octets>, e: Event)
    requires Step(p, c, db, pending, e.frame, e.nonce).reply.Returned?
    ensures Unwrap(c, db.rootKeys, e.frame).Returned?
    ensures
      var m, r := Unwrap(c, db.rootKeys, e.frame).value, Step(p, c, db, pending, e.frame, e.nonce).reply.value;
      if m.messageType == 81 then r.messageType == Some(82) && r.sessionId == None && r.session == None
      else if r.session.None? then r.messageType == None && r.sessionId == None
      else
        && r.messageType == Some(84) && r.sessionId.Some? && |r.sessionId.value| == 16
        && Hex(r.sessionId.value) == r.session.value.sessionId && |r.session.value.sessionKey| == 32
  {
    hide Unwrap, Hex, Unhex, RequestStep, Check, Wrap, StatusFrame, ProofBody;
    var m := Unwrap(c, db.rootKeys, e.frame).value;
    if m.messageType != ACCESS_AUTH_REQ && m.deviceID.Some? {
      var check := Check(p, db, pending, m.clientProof, Hex(m.deviceID.value));
      if check.Returned? && check.value.Some? {
        CheckedSession(p, db, pending, m.clientProof, Hex(m.deviceID.value));
      }
    }
  }

  lemma CheckedSession(p: Primitives, db: Database, pending: map<string, Octets>, proof: Option<Octets>, d: string)
    requires Check(p, db, pending, proof, d).Returned? && Check(p, db, pending, proof, d).value.Some?
    ensures
      var s := Check(p, db, pending, proof, d).value.value;
      && s.deviceId == d && |s.sessionKey| == 32
      && |Unhex(s.sessionId)| == 16 && Hex(Unhex(s.sessionId)) == s.sessionId
  {
    hide Hex, Unhex, Crypted, XorBytes, Subarray;
    var info, password := pending[d], Crypted(db.passwords[d]);
    var key := GetXor(proof.value, p.hmac(password, info), |proof.value|).value;
    var n := |d| / 2;
    UnhexHex(GetXor(Subarray(info, n, n + 32), Subarray(info, |info| - 32, |info|), 16).value);
    assert SessionOf(p, key, info, d).Returned?;
  }

  /** A frame that is not accepted, a request without a row and a proof that is not accepted are answered with four
      bytes: the type, the request id as it came (0 if the type is unknown), and 101. */
  lemma RefusalOnWire(p: Primitives, c: Cipher, db: Database, pending: map<string, Octets>, e: Event, m: Message)
    requires Step(p, c, db, pending, e.frame, e.nonce).reply.Returned?
    requires Unwrap(c, db.rootKeys, e.frame) == Returned(m)
    requires
      || m.status != SUCCESS
      || (m.messageType == 81 && m.deviceID.Some? && Hex(m.deviceID.value) !in db.challenges)
      || (m.messageType != 81 && Step(p, c, db, pending, e.frame, e.nonce).reply.value.session.None?)
    ensures |e.frame| >= 1 && (Signed(e.frame[0]) in {81, 83} ==> |e.frame| >= 4)
    ensures
      var f := e.frame;
      Step(p, c, db, pending, f, e.nonce).reply.value.message ==
      [if Signed(f[0]) == 81 then 82 else 84] + (if Signed(f[0]) in {81, 83} then f[1..3] else [0, 0]) + [101]
    ensures m.status != SUCCESS ==> Step(p, c, db, pending, e.frame, e.nonce).pending == pending
  {
    hide Unwrap, Hex, Unhex, Check, Wrap, ProofBody, BigEndianShort, Narrow, Signed, AuthInfo, WithChallenge,
      ChallengeOf;
    UnwrappedHead(c, db.rootKeys, e.frame, m);
    TypeBytes();
  }

  lemma UnwrappedHead(c: Cipher, rootKeys: map<Octets, Octets>, f: Octets, m: Message)
    requires Unwrap(c, rootKeys, f) == Returned(m)
    ensures |f| >= 1 && m.status in {SUCCESS, FAILURE}
    ensures if Signed(f[0]) in {81, 83} then |f| >= 4 && m.messageType == Signed(f[0]) &&
                                             BigEndianShort(m.requestID) == f[1..3]
            else m.messageType == 0 && BigEndianShort(m.requestID) == [0, 0] && m.status == FAILURE
  {
    hide Signed, CrcMatches, BeValue, Crypted, BigEndianShort;
    if |f| >= 4 {
      ShortOfBytes(f[1..3]);
      assert Subarray(f, 1, 3) == f[1..3];
    }
    ShortOfZero();
  }

  lemma ShortOfZero()
    ensures BigEndianShort(0) == [0, 0]
  {
    NarrowOfByte(0);
  }

  lemma ShortOfBytes(s: Octets)
    requires |s| == 2
    ensures BigEndianShort(BeValue(s)) == s
  {
    ShortsAgree(BeValue(s));
    ToBeOfValue(s);
  }

  lemma TypeBytes()
    ensures Narrow(82) == 82 && Narrow(84) == 84 && Narrow(101) == 101
  {
    NarrowOfByte(82);
    NarrowOfByte(84);
    NarrowOfByte(101);
  }

  /** A request of a device with a row is challenged exactly if its name is whole and nonce and salt have 32 bytes;
      otherwise the step throws and changes nothing. */
  lemma ChallengedIff(p: Primitives, c: Cipher, db: Database, pending: map<string, Octets>, e: Event, m: Message)
    requires Unwrap(c, db.rootKeys, e.frame) == Returned(m) && m.status == SUCCESS && m.messageType == 81
    requires m.deviceID.Some? && Hex(m.deviceID.value) in db.challenges
    ensures m.clientNonce.Some?
    ensures
      var d, s := Hex(m.deviceID.value), Step(p, c, db, pending, e.frame, e.nonce);
      var whole :=
        m.deviceIDLength == |m.deviceID.value| && |m.clientNonce.value| >= 32 && |db.challenges[d].salt| >= 32;
      && (StoresFor(c, db, e, d) <==> whole) && (s.reply.Returned? <==> whole)
      && (!whole ==> s.pending == pending)
  {
    hide Unwrap, Hex, ProofStep, Wrap, Crypted, LittleEndianShort, BigEndianShort, Narrow, StatusFrame;
    UnwrappedName(c, db.rootKeys, e.frame, m);
    UnwrappedRequest(c, db.rootKeys, e.frame, m);
    var r := WithChallenge(m, db.challenges[Hex(m.deviceID.value)], e.nonce);
    if AuthInfo(r).Returned? {
      WrapsAny(c, db, r);
    }
  }

  lemma UnwrappedRequest(c: Cipher, rootKeys: map<Octets, Octets>, f: Octets, m: Message)
    requires Unwrap(c, rootKeys, f) == Returned(m) && m.messageType == ACCESS_AUTH_REQ && m.status == SUCCESS
    ensures m.clientNonce.Some? && (m.encryptionAlgorithm == ENCRYPTION_ALGORITHM_AES ==> m.encryptionKeyID.Some?)
  {
    hide Signed, CrcMatches, BeValue, Crypted, Subarray;
  }

  lemma WrapsAny(c: Cipher, db: Database, m: Message)
    requires m.encryptionAlgorithm == ENCRYPTION_ALGORITHM_AES ==> m.encryptionKeyID.Some?
    ensures forall body :: Wrap(c, db.rootKeys, m, body).Returned?
  {
    hide StatusFrame, Sealing, Crypted;
  }

  /** A proof for which no challenge is stored is answered with a refusal and changes nothing. */
  lemma ProofWithoutChallenge(p: Primitives, c: Cipher, db: Database, pending: map<string, Octets>, e: Event,
                              m: Message)
    requires Unwrap(c, db.rootKeys, e.frame) == Returned(m) && m.status == SUCCESS && m.messageType != 81
    requires m.deviceID.Some? && Hex(m.deviceID.value) !in pending
    ensures
      var s := Step(p, c, db, pending, e.frame, e.nonce);
      s.reply.Returned? && s.reply.value.session.None? && s.pending == pending
  {
    hide Unwrap, Hex, RequestStep, StatusFrame;
  }
}
