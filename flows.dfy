/**
 * The two flows of `MainFragment` (ui/main/MainFragment.kt): pairing from a
 * scanned QR code, and unlocking the device the view model's current task
 * names. Both look the lock up, bond with it, connect an RFCOMM socket,
 * write a key and read a response framed by the sentinel byte.
 *
 * An attempt is one pass of a flow against a `Link`, the answers the
 * Bluetooth side gives; toasts, dialogs and logging are not modelled.
 */
module Flows {
  import opened Wrappers
  import opened Bytes
  import opened Sequences
  import opened Devices
  import opened QRCodes
  import opened Radio
  import opened Framing
  import opened DeviceStore
  import opened ViewModel

  /** What the Bluetooth side answers during one attempt. */
  datatype Link = Link(
    /** `bluetooth.enabled`. */
    enabled: bool,
    /** The user accepts the `ACTION_REQUEST_ENABLE` prompt. */
    enableGranted: bool,
    bonded: seq<RemoteDevice>,
    found: seq<RemoteDevice>,
    /** What the reflective `createBond` call returns. */
    createBond: bool,
    changes: seq<BondChange>,
    /** Creating the RFCOMM socket and `connect` raise no IOException. */
    connects: bool,
    /** The write of the key raises no IOException. */
    writes: bool,
    /** What each poll of the input stream finds. */
    chunks: seq<seq<byte>>)

  /** How an attempt ends. */
  datatype Outcome =
    | ScanCancelled                // the scanner returned no contents
    | Unsupported                  // `QRCode.parse` gave null
    | EnableDeclined               // the user refused to turn Bluetooth on
    | NotFound                     // no bonded or discovered device has the address
    | Unbonded(bond: BondOutcome)  // bonding refused, failed or still waiting
    | LinkFailed                   // IOException while connecting or writing
    | KeyUndecodable               // decoding the key to write threw, and the exception escapes the flow
    | TimedOut                     // no terminating chunk before the deadline
    | Overflowed                   // the response outgrew the buffer
    | Answered(response: seq<byte>) // a framed response, before the flow judges it
    | Rejected(hex: string)        // unlock: the response was not "20"
    | Paired(device: Device)       // pairing: the device handed to `onNewDevice`
    | Unlocked

  /** One attempt: its outcome, whether a discovery was started, whether a bond was requested, and the bytes written. */
  datatype Attempt = Attempt(outcome: Outcome, discovered: bool, bondRequested: bool, sent: Option<seq<byte>>)

  /** The Bluetooth side is usable: it is on, or the user turns it on when asked. */
  predicate Usable(link: Link) {
    link.enabled || link.enableGranted
  }

  /**
   * The steps both flows share: look the address up, bond, connect, write
   * `payload` (`None` when decoding the key threw) and read a response into
   * a buffer of `capacity` bytes within `budget` polls.
   */
  function Exchange(link: Link, mac: string, payload: Option<seq<byte>>, capacity: nat, budget: nat): (r: Attempt)
    ensures r.outcome in {NotFound, LinkFailed, KeyUndecodable, TimedOut, Overflowed} || r.outcome.Unbonded? || r.outcome.Answered?
    ensures r.outcome == NotFound <==> Locate(link.bonded, link.found, mac).device.None?
    ensures r.outcome == KeyUndecodable ==> payload.None?
    ensures r.sent.Some? ==> r.sent == payload
    ensures r.outcome.Answered? ==>
      r.sent == payload && ReadSpec(link.chunks, capacity, budget) == Response(r.outcome.response)
  {
    var lookup := Locate(link.bonded, link.found, mac);
    match lookup.device
    case None => Attempt(NotFound, lookup.discovered, false, None)
    case Some(peer) =>
      var requested := peer.bondState != Bonded;
      var bond := Bond(peer, link.createBond, link.changes);
      if bond != AlreadyBonded && bond != BondCreated then Attempt(Unbonded(bond), lookup.discovered, requested, None)
      else if !link.connects then Attempt(LinkFailed, lookup.discovered, requested, None)
      else if payload.None? then Attempt(KeyUndecodable, lookup.discovered, requested, None)
      else if !link.writes then Attempt(LinkFailed, lookup.discovered, requested, None)
      else
        var outcome := match ReadSpec(link.chunks, capacity, budget)
          case Timeout => TimedOut
          case Overflow => Overflowed
          case Response(b) => Answered(b);
        Attempt(outcome, lookup.discovered, requested, payload)
  }

  /**
   * The pairing flow: the scanned text must parse as a credential; the
   * decoded key is written, and the hex of the response becomes the key
   * of the new device, named "无名锁".
   */
  function Pairing(p: Platform, contents: Option<string>, link: Link): (r: Attempt)
    ensures r.outcome.Paired? ==>
      && contents.Some? && Usable(link) && Parse(p, contents).Some?
      && r.outcome.device.mac == Parse(p, contents).value.mac
      && r.outcome.device.name == DEFAULT_NAME
    ensures !r.outcome.Answered? && !r.outcome.Unlocked? && !r.outcome.Rejected?
  {
    if contents.None? then Attempt(ScanCancelled, false, false, None)
    else match Parse(p, contents)
      case None => Attempt(Unsupported, false, false, None)
      case Some(qr) =>
        if !Usable(link) then Attempt(EnableDeclined, false, false, None)
        else
          Enrol(qr, Exchange(link, qr.mac, DecodeBase64(qr.key), PAIRING_CAPACITY, PollBudget(PAIRING_DEADLINE_MS)))
  }

  /** The end of a pairing exchange: a response becomes the device for the credential's address, keyed by its hex. */
  function Enrol(qr: QRCode, a: Attempt): Attempt {
    match a.outcome
    case Answered(b) => a.(outcome := Paired(Device(qr.mac, Hex(b), DEFAULT_NAME)))
    case _ => a
  }

  /** The unlock flow: the stored hex key is written, and only the response "20" opens the lock. */
  function Unlock(device: Device, link: Link): (r: Attempt)
    ensures r.outcome == Unlocked ==> Usable(link) && r.sent == DecodeHex(device.key) && r.sent.Some?
    ensures !r.outcome.Answered? && !r.outcome.Paired?
  {
    if !Usable(link) then Attempt(EnableDeclined, false, false, None)
    else
      Verdict(Exchange(link, device.mac, DecodeHex(device.key), UNLOCK_CAPACITY, PollBudget(UNLOCK_DEADLINE_MS)))
  }

  /** The end of an unlock exchange: the response "20" opens the lock, any other is rejected. */
  function Verdict(a: Attempt): Attempt {
    match a.outcome
    case Answered(b) => a.(outcome := if Hex(b) == "20" then Unlocked else Rejected(Hex(b)))
    case _ => a
  }

  /**
   * The shared steps as the flows run them, one after the other. It is a
   * second rendering of `Exchange` on purpose: here the framed read is the
   * poll loop over a buffer, and the contract ties the two together.
   */
  method RunExchange(link: Link, mac: string, payload: Option<seq<byte>>, capacity: nat, budget: nat)
    returns (a: Attempt)
    ensures a == Exchange(link, mac, payload, capacity, budget)
  {
    var lookup := Locate(link.bonded, link.found, mac);
    if lookup.device.None? {
      return Attempt(NotFound, lookup.discovered, false, None);
    }
    var peer := lookup.device.value;
    var requested := peer.bondState != Bonded;
    var bond := Bond(peer, link.createBond, link.changes);
    if bond != AlreadyBonded && bond != BondCreated {
      return Attempt(Unbonded(bond), lookup.discovered, requested, None);
    }
    if !link.connects {
      return Attempt(LinkFailed, lookup.discovered, requested, None);
    }
    if payload.None? {
      return Attempt(KeyUndecodable, lookup.discovered, requested, None);
    }
    if !link.writes {
      return Attempt(LinkFailed, lookup.discovered, requested, None);
    }
    var read := ReadFramed(link.chunks, capacity, budget);
    var outcome := match read
      case Timeout => TimedOut
      case Overflow => Overflowed
      case Response(b) => Answered(b);
    return Attempt(outcome, lookup.discovered, requested, payload);
  }

  /**
   * The pairing flow, step by step. It restates `Pairing` on purpose: it
   * runs the exchange through `RunExchange` and so through the poll loop,
   * and the contract ties it to the function the lemmas are about.
   */
  method Pair(p: Platform, contents: Option<string>, link: Link) returns (a: Attempt)
    ensures a == Pairing(p, contents, link)
  {
    if contents.None? {
      return Attempt(ScanCancelled, false, false, None);
    }
    var qr := Parse(p, contents);
    if qr.None? {
      return Attempt(Unsupported, false, false, None);
    }
    if !Usable(link) {
      return Attempt(EnableDeclined, false, false, None);
    }
    var mac := qr.value.mac;
    a := RunExchange(link, mac, DecodeBase64(qr.value.key), PAIRING_CAPACITY, PollBudget(PAIRING_DEADLINE_MS));
    assert Pairing(p, contents, link) == Enrol(qr.value, a);
    if a.outcome.Answered? {
      a := a.(outcome := Paired(Device(mac, Hex(a.outcome.response), DEFAULT_NAME)));
    }
  }

  /** The pairing flow against the view model: a paired device is upserted into the list and the file. */
  method RunPairing(vm: MainViewModel, p: Platform, contents: Option<string>, link: Link) returns (a: Attempt)
    modifies vm`devices, vm`prefs
    ensures a == Pairing(p, contents, link)
    ensures a.outcome.Paired? ==>
      vm.devices == Upsert(old(vm.devices), a.outcome.device) && vm.prefs == Encoded(vm.devices)
    ensures !a.outcome.Paired? ==> vm.devices == old(vm.devices) && vm.prefs == old(vm.prefs)
    ensures old(vm.Valid()) ==> vm.Valid()
    ensures old(vm.Valid()) && a.outcome.Paired? ==> vm.Persisted()
  {
    a := Pair(p, contents, link);
    if a.outcome.Paired? {
      vm.OnNewDevice(a.outcome.device);
    }
  }

  /**
   * The unlock flow against the view model: whatever the outcome, the
   * completion handler calls `onTaskCompleted`, which empties the slot
   * without offering anything.
   */
  method RunUnlock(vm: MainViewModel, device: Device, link: Link) returns (a: Attempt)
    modifies vm`currentTask, vm`emitted
    ensures a == Unlock(device, link)
    ensures vm.emitted == old(vm.emitted)
    ensures vm.currentTask == if vm.observed then None else old(vm.currentTask)
  {
    if !Usable(link) {
      a := Attempt(EnableDeclined, false, false, None);
    } else {
      a := RunExchange(link, device.mac, DecodeHex(device.key), UNLOCK_CAPACITY, PollBudget(UNLOCK_DEADLINE_MS));
      if a.outcome.Answered? {
        var hex := Hex(a.outcome.response);
        a := a.(outcome := if hex == "20" then Unlocked else Rejected(hex));
      }
    }
    vm.OnTaskCompleted();
  }
  /** The lock is reported missing exactly when no bonded and no discovered device has the address; then nothing is bonded or written. */
  lemma NotFoundSendsNothing(link: Link, mac: string, payload: Option<seq<byte>>, capacity: nat, budget: nat)
    ensures var a := Exchange(link, mac, payload, capacity, budget);
      && (a.outcome == NotFound <==>
            (forall i :: 0 <= i < |link.bonded| ==> link.bonded[i].address != mac)
            && (forall i :: 0 <= i < |link.found| ==> link.found[i].address != mac))
      && (a.outcome == NotFound ==> a.discovered && !a.bondRequested && a.sent.None?)
  {
  }

  /** A lock among the bonded devices is used without a discovery, and without a bond request when it is bonded. */
  lemma BondedPeerSkipsDiscovery(link: Link, mac: string, payload: Option<seq<byte>>, capacity: nat, budget: nat, i: int)
    requires 0 <= i < |link.bonded| && link.bonded[i].address == mac && link.bonded[i].bondState == Bonded
    requires forall j :: 0 <= j < i ==> link.bonded[j].address != mac
    ensures var a := Exchange(link, mac, payload, capacity, budget);
      !a.discovered && !a.bondRequested && !a.outcome.Unbonded? && a.outcome != NotFound
  {
    var lookup := Locate(link.bonded, link.found, mac);
    FirstIndexAt(link.bonded, (d: RemoteDevice) => d.address == mac, i);
    assert lookup.device == Some(link.bonded[i]);
  }

  /**
   * Bytes reach the lock only after the lookup found it, the bond holds
   * (it was bonded, or its first change away from bonding ended bonded),
   * and the socket connected and took the write.
   */
  lemma SentOnlyAfterBond(link: Link, mac: string, payload: Option<seq<byte>>, capacity: nat, budget: nat)
    requires Exchange(link, mac, payload, capacity, budget).sent.Some?
    ensures Locate(link.bonded, link.found, mac).device.Some?
    ensures Bond(Locate(link.bonded, link.found, mac).device.value, link.createBond, link.changes) in {AlreadyBonded, BondCreated}
    ensures link.connects && link.writes && payload.Some?
  {
  }

  /** The `!!` on the decoded key never fires: the key of a parsed credential is always valid base64. */
  lemma PairingKeyNeverMissing(p: Platform, contents: Option<string>, link: Link)
    ensures Pairing(p, contents, link).outcome != KeyUndecodable
  {
    if contents.Some? && Parse(p, contents).Some? && Usable(link) {
      var qr := Parse(p, contents).value;
      ParseCredential(p, contents.value);
      assert Pairing(p, contents, link)
        == Enrol(qr, Exchange(link, qr.mac, DecodeBase64(qr.key), PAIRING_CAPACITY, PollBudget(PAIRING_DEADLINE_MS)));
    }
  }

  /** What pairing writes to the lock is the plaintext the credential decrypts to. */
  lemma PairingSendsPlaintext(p: Platform, text: string, link: Link)
    requires Pairing(p, Some(text), link).sent.Some?
    ensures IssuerUrl(p, text).Some?
    ensures Pairing(p, Some(text), link).sent == Plaintext(p, IssuerUrl(p, text).value)
  {
    assert Parse(p, Some(text)).Some? && Usable(link);
    var qr := Parse(p, Some(text)).value;
    ParseCredential(p, text);
    var a := Exchange(link, qr.mac, DecodeBase64(qr.key), PAIRING_CAPACITY, PollBudget(PAIRING_DEADLINE_MS));
    assert Pairing(p, Some(text), link) == Enrol(qr, a);
  }

  /**
   * A paired device carries the credential's address, the default name,
   * and as key the hex of the lock's response, which decodes back to that
   * response exactly.
   */
  lemma PairedDevice(p: Platform, text: string, link: Link)
    requires Pairing(p, Some(text), link).outcome.Paired?
    ensures var d := Pairing(p, Some(text), link).outcome.device;
      var response := ReadSpec(link.chunks, PAIRING_CAPACITY, PollBudget(PAIRING_DEADLINE_MS));
      && IssuerUrl(p, text).Some?
      && QueryParameter(IssuerUrl(p, text).value, "mac") == Some(d.mac)
      && d.name == DEFAULT_NAME
      && response.Response?
      && d.key == Hex(response.bytes)
      && DecodeHex(d.key) == Some(response.bytes)
  {
    var qr := PairingCredential(p, text, link);
    var a := Exchange(link, qr.mac, DecodeBase64(qr.key), PAIRING_CAPACITY, PollBudget(PAIRING_DEADLINE_MS));
    assert a.outcome.Answered?;
    HexRoundTrip(a.outcome.response);
  }

  /** A pairing that reaches the lock does so with a parsed credential, on a usable link, and ends as its exchange does. */
  lemma PairingCredential(p: Platform, text: string, link: Link) returns (qr: QRCode)
    requires Pairing(p, Some(text), link).outcome !in {Unsupported, EnableDeclined}
    ensures Parse(p, Some(text)) == Some(qr) && Usable(link)
    ensures Pairing(p, Some(text), link)
      == Enrol(qr, Exchange(link, qr.mac, DecodeBase64(qr.key), PAIRING_CAPACITY, PollBudget(PAIRING_DEADLINE_MS)))
  {
    qr := Parse(p, Some(text)).value;
  }

  /**
   * Unlocking a paired device never fails on its key, and what it writes
   * is the response the lock gave when it was paired.
   */
  lemma PairedDeviceUnlocks(p: Platform, text: string, pairing: Link, unlock: Link, response: seq<byte>)
    requires Pairing(p, Some(text), pairing).outcome.Paired?
    requires ReadSpec(pairing.chunks, PAIRING_CAPACITY, PollBudget(PAIRING_DEADLINE_MS)) == Response(response)
    ensures var d := Pairing(p, Some(text), pairing).outcome.device;
      && Unlock(d, unlock).outcome != KeyUndecodable
      && (Unlock(d, unlock).sent.Some? ==> Unlock(d, unlock).sent == Some(response))
  {
    PairedDevice(p, text, pairing);
    var d := Pairing(p, Some(text), pairing).outcome.device;
    assert DecodeHex(d.key) == Some(response);
    var a := Exchange(unlock, d.mac, Some(response), UNLOCK_CAPACITY, PollBudget(UNLOCK_DEADLINE_MS));
    assert Unlock(d, unlock) == if Usable(unlock) then Verdict(a) else Attempt(EnableDeclined, false, false, None);
  }

  /** The lock opens exactly when the exchange is answered by the lone sentinel byte. */
  lemma UnlockedIffSentinel(device: Device, link: Link)
    ensures Unlock(device, link).outcome == Unlocked <==>
      && Usable(link)
      && Exchange(link, device.mac, DecodeHex(device.key), UNLOCK_CAPACITY, PollBudget(UNLOCK_DEADLINE_MS)).outcome
           == Answered([SENTINEL])
  {
    if Usable(link) {
      var a := Exchange(link, device.mac, DecodeHex(device.key), UNLOCK_CAPACITY, PollBudget(UNLOCK_DEADLINE_MS));
      if a.outcome.Answered? {
        HexIsSentinel(a.outcome.response);
      }
    }
  }

  /** Any other answer is rejected with its hex, and the lock stays shut. */
  lemma OtherAnswerRejected(device: Device, link: Link, b: seq<byte>)
    requires Usable(link)
    requires Exchange(link, device.mac, DecodeHex(device.key), UNLOCK_CAPACITY, PollBudget(UNLOCK_DEADLINE_MS)).outcome == Answered(b)
    requires b != [SENTINEL]
    ensures Unlock(device, link).outcome == Rejected(Hex(b))
  {
    HexIsSentinel(b);
  }
}
