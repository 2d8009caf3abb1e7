/**
 * The Bluetooth steps both flows of ui/main/MainFragment.kt take before they
 * open a socket: find the remote device for an address (bonded devices
 * first, then a discovery), and bond with it when it is not bonded yet.
 *
 * The adapter's answers are values here: the bonded devices in the order
 * the adapter's set yields them, the devices a discovery reports before it
 * finishes, what `createBond` returns and the bond-state changes broadcast
 * after it.
 */
module Radio {
  import opened Wrappers
  import opened Sequences

  /** `BluetoothDevice.BOND_NONE`, `BOND_BONDING` and `BOND_BONDED`. */
  datatype BondState = BondNone | Bonding | Bonded

  /** A remote device as the flows see it: its address and its bond state when it is looked up. */
  datatype RemoteDevice = RemoteDevice(address: string, bondState: BondState)

  /** An `ACTION_BOND_STATE_CHANGED` broadcast. */
  datatype BondChange = BondChange(address: string, previous: BondState, current: BondState)

  /** Where the device for an address came from, if it was found, and whether a discovery was started for it. */
  datatype Lookup = Lookup(device: Option<RemoteDevice>, discovered: bool)

  /**
   * The lookup: the first bonded device with the address; failing that,
   * a discovery is started and the first device it reports with the
   * address, if any before the discovery finishes.
   */
  function Locate(bonded: seq<RemoteDevice>, found: seq<RemoteDevice>, mac: string): (r: Lookup)
    ensures r.device.Some? ==> r.device.value.address == mac
    ensures r.discovered <==> forall i :: 0 <= i < |bonded| ==> bonded[i].address != mac
    ensures r.device.None? <==>
      (forall i :: 0 <= i < |bonded| ==> bonded[i].address != mac)
      && (forall i :: 0 <= i < |found| ==> found[i].address != mac)
    ensures !r.discovered ==> r.device.Some? && r.device.value in bonded
    ensures r.discovered && r.device.Some? ==> r.device.value in found
    ensures !r.discovered ==> r.device == FirstOf(bonded, (d: RemoteDevice) => d.address == mac)
    ensures r.discovered ==> r.device == FirstOf(found, (d: RemoteDevice) => d.address == mac)
  {
    match FirstOf(bonded, (d: RemoteDevice) => d.address == mac)
    case Some(d) => Lookup(Some(d), false)
    case None => Lookup(FirstOf(found, (d: RemoteDevice) => d.address == mac), true)
  }

  /** How the bonding step ends. */
  datatype BondOutcome =
    | AlreadyBonded   // nothing to do
    | BondCreated     // the device went from bonding to bonded
    | BondRefused     // `createBond` returned false
    | BondFailed      // the device went from bonding to anything else
    | BondWaiting     // no change from bonding was broadcast: the flow waits for one indefinitely

  /** The broadcast is delivered only when the state actually changed, and the flow wants the device's first change away from bonding. */
  predicate LeavesBonding(address: string, e: BondChange) {
    e.current != e.previous && e.address == address && e.previous == Bonding
  }

  /**
   * The bonding step: a device that is not bonded gets `createBond`; when
   * that is accepted, the first change of the device away from bonding
   * decides.
   */
  function Bond(device: RemoteDevice, createBond: bool, changes: seq<BondChange>): (r: BondOutcome)
    ensures device.bondState == Bonded <==> r == AlreadyBonded
    ensures r == BondRefused <==> device.bondState != Bonded && !createBond
    ensures r == BondCreated <==>
      && device.bondState != Bonded && createBond
      && exists k :: 0 <= k < |changes| && LeavesBonding(device.address, changes[k])
           && changes[k].current == Bonded
           && forall j :: 0 <= j < k ==> !LeavesBonding(device.address, changes[j])
    ensures r == BondWaiting <==>
      && device.bondState != Bonded && createBond
      && forall j :: 0 <= j < |changes| ==> !LeavesBonding(device.address, changes[j])
  {
    if device.bondState == Bonded then AlreadyBonded
    else if !createBond then BondRefused
    else
      match FirstIndex(changes, (e: BondChange) => LeavesBonding(device.address, e))
      case None => BondWaiting
      case Some(k) => if changes[k].current == Bonded then BondCreated else BondFailed
  }

  /** A device already bonded is used as it is: nothing is requested and no broadcast matters. */
  lemma BondedNeedsNothing(device: RemoteDevice, createBond: bool, changes: seq<BondChange>)
    requires device.bondState == Bonded
    ensures Bond(device, createBond, changes) == AlreadyBonded
  {
  }

  /** Broadcasts about other devices, or changes that do not leave bonding, never decide the bond. */
  lemma {:induction false} OtherChangesIgnored(device: RemoteDevice, createBond: bool, changes: seq<BondChange>, e: BondChange)
    requires !LeavesBonding(device.address, e)
    ensures Bond(device, createBond, [e] + changes) == Bond(device, createBond, changes)
  {
    var p := (c: BondChange) => LeavesBonding(device.address, c);
    var s := [e] + changes;
    assert s[1..] == changes;
    assert !p(s[0]);
  }
}
