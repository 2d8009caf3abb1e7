/**
 * The ordered list of known locks (ui/main/MainViewModel.kt) and the two
 * edits the view model makes to it: the upsert after a pairing and the rename.
 */
module Devices {
  import opened Wrappers
  import opened Sequences

  /** A known lock: its Bluetooth address, the hex key it issued and a name the user picks. */
  datatype Device = Device(mac: string, key: string, name: string)

  /** The name a freshly paired lock gets: "无名锁", "unnamed lock". */
  const DEFAULT_NAME := "\U{65E0}\U{540D}\U{9501}"

  /** Kotlin `indexOfFirst { it.mac == mac }`, with -1 for "absent". */
  function IndexOfMac(ds: seq<Device>, mac: string): (i: int)
    ensures -1 <= i < |ds|
    ensures i >= 0 ==> ds[i].mac == mac && forall j :: 0 <= j < i ==> ds[j].mac != mac
    ensures i == -1 <==> forall j :: 0 <= j < |ds| ==> ds[j].mac != mac
  {
    match FirstIndex(ds, (d: Device) => d.mac == mac)
    case None => -1
    case Some(i) => i
  }

  /** The set of addresses in the list. */
  function Macs(ds: seq<Device>): set<string> {
    set i | 0 <= i < |ds| :: ds[i].mac
  }

  /** No two entries share an address. */
  ghost predicate UniqueMacs(ds: seq<Device>) {
    forall i, j :: 0 <= i < j < |ds| ==> ds[i].mac != ds[j].mac
  }

  /**
   * `onNewDevice` on the list: a known address has its entry take the new
   * key and trade places with the front entry; an unknown one is put in front.
   */
  function Upsert(ds: seq<Device>, d: Device): (r: seq<Device>)
    ensures |r| == if IndexOfMac(ds, d.mac) == -1 then |ds| + 1 else |ds|
    ensures r[0].mac == d.mac && r[0].key == d.key
  {
    var i := IndexOfMac(ds, d.mac);
    if i == -1 then
      [d] + ds
    else
      seq(|ds|, j requires 0 <= j < |ds| =>
        if j == 0 then ds[i].(key := d.key) else if j == i then ds[0] else ds[j])
  }

  /** `updateDeviceName` on the list: the first entry with the address gets the new name. */
  function Rename(ds: seq<Device>, mac: string, name: string): (r: seq<Device>)
    ensures |r| == |ds|
    ensures forall k :: 0 <= k < |ds| ==> r[k].mac == ds[k].mac && r[k].key == ds[k].key
  {
    var i := IndexOfMac(ds, mac);
    if i == -1 then ds else ds[i := ds[i].(name := name)]
  }

  /** A known address: same length, its entry in front with the new key and its old name, the old front where it was, the rest in place. */
  lemma UpsertKnown(ds: seq<Device>, d: Device, i: int)
    requires i == IndexOfMac(ds, d.mac) && i >= 0
    ensures var r := Upsert(ds, d);
      && |r| == |ds|
      && r[0] == Device(d.mac, d.key, ds[i].name)
      && (i != 0 ==> r[i] == ds[0])
      && forall j :: 0 < j < |ds| && j != i ==> r[j] == ds[j]
  {
  }

  /** An unknown address: the device goes in front and every entry moves up one place. */
  lemma UpsertUnknown(ds: seq<Device>, d: Device)
    requires IndexOfMac(ds, d.mac) == -1
    ensures var r := Upsert(ds, d);
      && |r| == |ds| + 1 && r[0] == d
      && forall j :: 0 <= j < |ds| ==> r[j + 1] == ds[j]
  {
  }

  /** After an upsert the front entry carries the new address and key, and the address set only gains that address. */
  lemma UpsertFront(ds: seq<Device>, d: Device)
    ensures var r := Upsert(ds, d);
      && |r| > 0 && r[0].mac == d.mac && r[0].key == d.key
      && Macs(r) == Macs(ds) + {d.mac}
  {
    var r := Upsert(ds, d);
    var i := IndexOfMac(ds, d.mac);
    if i == -1 {
      assert forall j :: 0 <= j < |ds| ==> r[j + 1] == ds[j];
      assert forall m :: m in Macs(r) ==> m in Macs(ds) + {d.mac} by {
        forall m | m in Macs(r) ensures m in Macs(ds) + {d.mac} {
          var k :| 0 <= k < |r| && r[k].mac == m;
          if k > 0 { assert ds[k - 1].mac == m; }
        }
      }
      assert forall m :: m in Macs(ds) ==> m in Macs(r) by {
        forall m | m in Macs(ds) ensures m in Macs(r) {
          var k :| 0 <= k < |ds| && ds[k].mac == m;
          assert r[k + 1].mac == m;
        }
      }
      assert r[0].mac == d.mac;
    } else {
      assert forall m :: m in Macs(r) ==> m in Macs(ds) by {
        forall m | m in Macs(r) ensures m in Macs(ds) {
          var k :| 0 <= k < |r| && r[k].mac == m;
          if k == 0 { assert ds[i].mac == m; } else if k == i { assert ds[0].mac == m; } else { assert ds[k].mac == m; }
        }
      }
      assert forall m :: m in Macs(ds) ==> m in Macs(r) by {
        forall m | m in Macs(ds) ensures m in Macs(r) {
          var k :| 0 <= k < |ds| && ds[k].mac == m;
          if k == 0 { assert r[i].mac == m; } else if k == i { assert r[0].mac == m; } else { assert r[k].mac == m; }
        }
      }
      assert d.mac in Macs(ds);
    }
  }

  /** An upsert never gives two entries the same address. */
  lemma UpsertKeepsMacsUnique(ds: seq<Device>, d: Device)
    requires UniqueMacs(ds)
    ensures UniqueMacs(Upsert(ds, d))
  {
    var r := Upsert(ds, d);
    var i := IndexOfMac(ds, d.mac);
    if i == -1 {
      forall a, b | 0 <= a < b < |r| ensures r[a].mac != r[b].mac {
        if a == 0 { assert r[b] == ds[b - 1]; } else { assert r[a] == ds[a - 1] && r[b] == ds[b - 1]; }
      }
    } else {
      // r is ds with the entries at 0 and i exchanged, and only keys changed
      ghost var src := (j: int) requires 0 <= j < |ds| => if j == 0 then i else if j == i then 0 else j;
      forall a, b | 0 <= a < b < |r| ensures r[a].mac != r[b].mac {
        assert r[a].mac == ds[src(a)].mac && r[b].mac == ds[src(b)].mac;
      }
    }
  }

  /** Upserting the same device twice is the same as upserting it once. */
  lemma UpsertIdempotent(ds: seq<Device>, d: Device)
    ensures Upsert(Upsert(ds, d), d) == Upsert(ds, d)
  {
    var r := Upsert(ds, d);
    UpsertFront(ds, d);
    assert IndexOfMac(r, d.mac) == 0;
    var rr := Upsert(r, d);
    assert |rr| == |r|;
    forall j | 0 <= j < |r| ensures rr[j] == r[j] {
    }
  }

  /** Upserting an entry of the list itself (as `onNewTask` does) swaps it with the front entry and changes nothing else. */
  lemma UpsertOwnEntry(ds: seq<Device>, i: int)
    requires 0 <= i < |ds| && IndexOfMac(ds, ds[i].mac) == i
    ensures Upsert(ds, ds[i]) == ds[i := ds[0]][0 := ds[i]]
  {
  }

  /** A rename touches only the name of the first entry with the address: length, order, addresses and keys stay. */
  lemma RenameOnlyRenames(ds: seq<Device>, mac: string, name: string)
    ensures var r := Rename(ds, mac, name); var i := IndexOfMac(ds, mac);
      && |r| == |ds|
      && (forall j :: 0 <= j < |ds| ==> r[j].mac == ds[j].mac && r[j].key == ds[j].key)
      && (forall j :: 0 <= j < |ds| && j != i ==> r[j] == ds[j])
      && (i >= 0 ==> r[i].name == name)
  {
  }

  /** Renaming an address that is not in the list leaves the list as it is. */
  lemma RenameAbsent(ds: seq<Device>, mac: string, name: string)
    requires forall j :: 0 <= j < |ds| ==> ds[j].mac != mac
    ensures Rename(ds, mac, name) == ds
  {
  }

  lemma RenameKeepsMacsUnique(ds: seq<Device>, mac: string, name: string)
    requires UniqueMacs(ds)
    ensures UniqueMacs(Rename(ds, mac, name))
  {
  }
}
