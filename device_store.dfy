/**
 * The device list's persistent form (ui/main/MainViewModel.kt): the
 * shared-preferences file "pslock_devices", a flat map from names to values.
 * `storeDevices` clears it and writes `index_<mac>`, `name_<mac>`, `key_<mac>`
 * for every device and the set `all_mac`; the loader in `init` rebuilds the
 * list from those entries.
 */
module DeviceStore {
  import opened Wrappers
  import opened Devices

  /** A value of the preferences file, by the type it was written with. */
  datatype Value = IntValue(i: int) | StringValue(s: string) | StringSetValue(ss: set<string>)

  type Prefs = map<string, Value>

  const ALL_MAC := "all_mac"

  function IndexKey(mac: string): string { "index_" + mac }
  function NameKey(mac: string): string { "name_" + mac }
  function KeyKey(mac: string): string { "key_" + mac }

  /** What makes the loader throw: a value of the wrong type, a missing entry, an index past the list. */
  datatype LoadError = WrongType(entry: string) | MissingEntry(entry: string) | IndexOutOfBounds(index: int)

  // ------------------------------------------------------------ storing

  /** The file once the editor, cleared first, has written the first `n` devices. */
  function Written(ds: seq<Device>, n: nat): Prefs
    requires n <= |ds|
  {
    if n == 0 then map[]
    else
      var d := ds[n - 1];
      Written(ds, n - 1)[IndexKey(d.mac) := IntValue(n - 1)][NameKey(d.mac) := StringValue(d.name)][KeyKey(d.mac) := StringValue(d.key)]
  }

  /** The file `storeDevices(ds)` commits. */
  function Encoded(ds: seq<Device>): Prefs {
    Written(ds, |ds|)[ALL_MAC := StringSetValue(Macs(ds))]
  }

  /**
   * The body of `storeDevices`: the `edit { … }` block clears the file, walks
   * the list with `forEachIndexed` collecting the addresses, and commits.
   */
  method EditDevices(ds: seq<Device>) returns (prefs: Prefs)
    ensures prefs == Encoded(ds)
  {
    prefs := map[];
    var macSet: set<string> := {};
    for i := 0 to |ds|
      invariant prefs == Written(ds, i)
      invariant macSet == Macs(ds[..i])
    {
      var device := ds[i];
      MacsSnoc(ds, i);
      macSet := macSet + {device.mac};
      prefs := prefs[IndexKey(device.mac) := IntValue(i)];
      prefs := prefs[NameKey(device.mac) := StringValue(device.name)];
      prefs := prefs[KeyKey(device.mac) := StringValue(device.key)];
    }
    assert ds[..|ds|] == ds;
    prefs := prefs[ALL_MAC := StringSetValue(macSet)];
  }

  lemma MacsSnoc(ds: seq<Device>, i: int)
    requires 0 <= i < |ds|
    ensures Macs(ds[..i + 1]) == Macs(ds[..i]) + {ds[i].mac}
  {
    var a, b := ds[..i + 1], ds[..i];
    forall m | m in Macs(a) ensures m in Macs(b) + {ds[i].mac} {
      var k :| 0 <= k < |a| && a[k].mac == m;
      if k < i { assert b[k].mac == m; }
    }
    forall m | m in Macs(b) + {ds[i].mac} ensures m in Macs(a) {
      if m == ds[i].mac { assert a[i].mac == m; }
      else { var k :| 0 <= k < |b| && b[k].mac == m; assert a[k].mac == m; }
    }
  }

  /** The entry names of distinct addresses, and of different fields, never coincide. */
  lemma EntryNamesDistinct(a: string, b: string)
    ensures IndexKey(a) == IndexKey(b) ==> a == b
    ensures NameKey(a) == NameKey(b) ==> a == b
    ensures KeyKey(a) == KeyKey(b) ==> a == b
    ensures IndexKey(a) != NameKey(b) && IndexKey(a) != KeyKey(b) && NameKey(a) != KeyKey(b)
    ensures IndexKey(a) != ALL_MAC && NameKey(a) != ALL_MAC && KeyKey(a) != ALL_MAC
  {
    assert IndexKey(a)[6..] == a && IndexKey(b)[6..] == b;
    assert NameKey(a)[5..] == a && NameKey(b)[5..] == b;
    assert KeyKey(a)[4..] == a && KeyKey(b)[4..] == b;
    assert IndexKey(a)[0] == 'i' && NameKey(b)[0] == 'n' && KeyKey(b)[0] == 'k';
    assert NameKey(a)[0] == 'n' && KeyKey(a)[0] == 'k';
  }

  /** In the written prefix, every written device's three entries hold its position, name and key. */
  lemma {:induction false} WrittenAt(ds: seq<Device>, n: nat, k: int)
    requires UniqueMacs(ds) && n <= |ds| && 0 <= k < n
    ensures var prefs, d := Written(ds, n), ds[k];
      && IndexKey(d.mac) in prefs && prefs[IndexKey(d.mac)] == IntValue(k)
      && NameKey(d.mac) in prefs && prefs[NameKey(d.mac)] == StringValue(d.name)
      && KeyKey(d.mac) in prefs && prefs[KeyKey(d.mac)] == StringValue(d.key)
  {
    EntryNamesDistinct(ds[k].mac, ds[k].mac);
    if k < n - 1 {
      WrittenAt(ds, n - 1, k);
      EntryNamesDistinct(ds[k].mac, ds[n - 1].mac);
      EntryNamesDistinct(ds[n - 1].mac, ds[k].mac);
    }
  }

  /** The written prefix holds exactly the three entries of each written device. */
  lemma {:induction false} WrittenKeys(ds: seq<Device>, n: nat)
    requires n <= |ds|
    ensures forall e :: e in Written(ds, n) <==>
      exists k :: 0 <= k < n && (e == IndexKey(ds[k].mac) || e == NameKey(ds[k].mac) || e == KeyKey(ds[k].mac))
  {
    if n > 0 {
      WrittenKeys(ds, n - 1);
    }
  }

  /**
   * What `storeDevices` leaves for a list with distinct addresses: each
   * device's position, name and key under its own entries, the address set
   * under `all_mac`, and nothing else, since the file was cleared first.
   */
  lemma EncodedLayout(ds: seq<Device>)
    requires UniqueMacs(ds)
    ensures var prefs := Encoded(ds);
      && (forall k :: 0 <= k < |ds| ==>
            && IndexKey(ds[k].mac) in prefs && prefs[IndexKey(ds[k].mac)] == IntValue(k)
            && NameKey(ds[k].mac) in prefs && prefs[NameKey(ds[k].mac)] == StringValue(ds[k].name)
            && KeyKey(ds[k].mac) in prefs && prefs[KeyKey(ds[k].mac)] == StringValue(ds[k].key))
      && ALL_MAC in prefs && prefs[ALL_MAC] == StringSetValue(Macs(ds))
      && (forall e :: e in prefs <==>
            (e == ALL_MAC ||
             exists k :: 0 <= k < |ds| && (e == IndexKey(ds[k].mac) || e == NameKey(ds[k].mac) || e == KeyKey(ds[k].mac))))
  {
    forall k | 0 <= k < |ds|
      ensures var prefs := Encoded(ds);
        && IndexKey(ds[k].mac) in prefs && prefs[IndexKey(ds[k].mac)] == IntValue(k)
        && NameKey(ds[k].mac) in prefs && prefs[NameKey(ds[k].mac)] == StringValue(ds[k].name)
        && KeyKey(ds[k].mac) in prefs && prefs[KeyKey(ds[k].mac)] == StringValue(ds[k].key)
    {
      EncodedAt(ds, k);
    }
    WrittenKeys(ds, |ds|);
  }

  lemma EncodedAt(ds: seq<Device>, k: int)
    requires UniqueMacs(ds) && 0 <= k < |ds|
    ensures var prefs, d := Encoded(ds), ds[k];
      && IndexKey(d.mac) in prefs && prefs[IndexKey(d.mac)] == IntValue(k)
      && NameKey(d.mac) in prefs && prefs[NameKey(d.mac)] == StringValue(d.name)
      && KeyKey(d.mac) in prefs && prefs[KeyKey(d.mac)] == StringValue(d.key)
  {
    WrittenAt(ds, |ds|, k);
    EntryNamesDistinct(ds[k].mac, ds[k].mac);
  }

  /** Visiting a stored address puts its device back at its position. */
  lemma VisitEncoded(ds: seq<Device>, res: seq<Option<Device>>, k: int)
    requires UniqueMacs(ds) && |res| == |ds| && 0 <= k < |ds|
    ensures Visit(Encoded(ds), res, ds[k].mac) == Ok(res[k := Some(ds[k])])
  {
    EncodedAt(ds, k);
  }

  // ------------------------------------------------------------ loading

  /** `getStringSet(entry, default)`: the default when absent; a value of another type throws. */
  function GetStringSet(prefs: Prefs, entry: string, default: set<string>): Result<set<string>, LoadError> {
    if entry !in prefs then Ok(default)
    else if prefs[entry].StringSetValue? then Ok(prefs[entry].ss)
    else Err(WrongType(entry))
  }

  /** `getInt(entry, default)`. */
  function GetInt(prefs: Prefs, entry: string, default: int): Result<int, LoadError> {
    if entry !in prefs then Ok(default)
    else if prefs[entry].IntValue? then Ok(prefs[entry].i)
    else Err(WrongType(entry))
  }

  /** `getString(entry, null)`. */
  function GetString(prefs: Prefs, entry: string): Result<Option<string>, LoadError> {
    if entry !in prefs then Ok(None)
    else if prefs[entry].StringValue? then Ok(Some(prefs[entry].s))
    else Err(WrongType(entry))
  }

  /**
   * One round of the loader's `for (mac in macSet)`: an address without an
   * index (or with index -1) is skipped; one with an index needs its key and
   * its name, and the index must lie inside the list.
   */
  function Visit(prefs: Prefs, res: seq<Option<Device>>, mac: string): Result<seq<Option<Device>>, LoadError> {
    match GetInt(prefs, IndexKey(mac), -1)
    case Err(e) => Err(e)
    case Ok(index) =>
      if index == -1 then Ok(res)
      else
        match (GetString(prefs, KeyKey(mac)), GetString(prefs, NameKey(mac)))
        case (Err(e), _) => Err(e)
        case (Ok(None), _) => Err(MissingEntry(KeyKey(mac)))
        case (Ok(Some(_)), Err(e)) => Err(e)
        case (Ok(Some(_)), Ok(None)) => Err(MissingEntry(NameKey(mac)))
        case (Ok(Some(key)), Ok(Some(name))) =>
          if 0 <= index < |res| then Ok(res[index := Some(Device(mac, key, name))])
          else Err(IndexOutOfBounds(index))
  }

  /** The slots after visiting `macs` in order, starting from `res`; the first failure ends the load. */
  function Fill(prefs: Prefs, res: seq<Option<Device>>, macs: seq<string>): Result<seq<Option<Device>>, LoadError>
    decreases |macs|
  {
    if macs == [] then Ok(res)
    else
      match Visit(prefs, res, macs[0])
      case Err(e) => Err(e)
      case Ok(next) => Fill(prefs, next, macs[1..])
  }

  /** Kotlin `filterNotNull()`. */
  function Present(res: seq<Option<Device>>): seq<Device> {
    if res == [] then []
    else (if res[0].Some? then [res[0].value] else []) + Present(res[1..])
  }

  function Empty(n: nat): (res: seq<Option<Device>>)
    ensures |res| == n && forall j :: 0 <= j < n ==> res[j].None?
  {
    seq(n, _ => None)
  }

  /** The loader in `init`, visiting the addresses of `all_mac` in the order `order`. */
  function Load(prefs: Prefs, order: seq<string>): Result<seq<Device>, LoadError> {
    match GetStringSet(prefs, ALL_MAC, {})
    case Err(e) => Err(e)
    case Ok(macSet) =>
      match Fill(prefs, Empty(|macSet|), order)
      case Err(e) => Err(e)
      case Ok(res) => Ok(Present(res))
  }

  /** `order` lists every element of `s` once. */
  ghost predicate Enumerates(order: seq<string>, s: set<string>) {
    && (forall i, j :: 0 <= i < j < |order| ==> order[i] != order[j])
    && (forall m :: m in order <==> m in s)
  }

  /** The order in which the platform's hash set hands out the stored addresses. */
  ghost predicate IteratesMacSet(prefs: Prefs, order: seq<string>) {
    match GetStringSet(prefs, ALL_MAC, {})
    case Ok(macSet) => Enumerates(order, macSet)
    case Err(_) => order == []
  }

  /**
   * The loader: a list of nullable slots as long as the address set, filled
   * by index, then stripped of its empty slots.
   */
  method LoadDevices(prefs: Prefs, order: seq<string>) returns (r: Result<seq<Device>, LoadError>)
    requires IteratesMacSet(prefs, order)
    ensures r == Load(prefs, order)
  {
    var macSet := GetStringSet(prefs, ALL_MAC, {});
    if macSet.Err? {
      return Err(macSet.error);
    }
    var res := new Option<Device>[|macSet.value|](_ => None);
    assert res[..] == Empty(|macSet.value|);
    for i := 0 to |order|
      invariant Fill(prefs, res[..], order[i..]) == Fill(prefs, Empty(|macSet.value|), order)
    {
      var mac := order[i];
      assert order[i..][0] == mac && order[i..][1..] == order[i + 1..];
      var index := GetInt(prefs, IndexKey(mac), -1);
      if index.Err? {
        return Err(index.error);
      }
      if index.value != -1 {
        var key := GetString(prefs, KeyKey(mac));
        if key.Err? {
          return Err(key.error);
        } else if key.value.None? {
          return Err(MissingEntry(KeyKey(mac)));
        }
        var name := GetString(prefs, NameKey(mac));
        if name.Err? {
          return Err(name.error);
        } else if name.value.None? {
          return Err(MissingEntry(NameKey(mac)));
        }
        if !(0 <= index.value < res.Length) {
          return Err(IndexOutOfBounds(index.value));
        }
        res[index.value] := Some(Device(mac, key.value.value, name.value.value));
      }
    }
    assert order[|order|..] == [];
    return Ok(Present(res[..]));
  }

  // ------------------------------------------------------------ properties of the loader

  /** An address whose `index_` entry is absent or holds -1 is skipped. */
  lemma UnindexedSkipped(prefs: Prefs, res: seq<Option<Device>>, mac: string)
    requires GetInt(prefs, IndexKey(mac), -1) == Ok(-1)
    ensures Visit(prefs, res, mac) == Ok(res)
  {
  }

  /** An address with an index but without its `key_` or `name_` entry makes the load throw. */
  lemma IndexedNeedsKeyAndName(prefs: Prefs, res: seq<Option<Device>>, mac: string)
    requires IndexKey(mac) in prefs && prefs[IndexKey(mac)].IntValue? && prefs[IndexKey(mac)].i != -1
    requires KeyKey(mac) !in prefs || NameKey(mac) !in prefs
    ensures Visit(prefs, res, mac).Err?
  {
  }

  /** Once any visited address fails, the whole fill fails, whatever the others hold. */
  lemma {:induction false} FillFailsOnFailedVisit(prefs: Prefs, res: seq<Option<Device>>, macs: seq<string>, mac: string)
    requires mac in macs
    requires forall slots :: Visit(prefs, slots, mac).Err?
    ensures Fill(prefs, res, macs).Err?
    decreases |macs|
  {
    if macs[0] != mac {
      match Visit(prefs, res, macs[0])
      case Err(_) =>
      case Ok(next) =>
        assert mac in macs[1..];
        FillFailsOnFailedVisit(prefs, next, macs[1..], mac);
    }
  }

  /**
   * The loader as a whole throws when any stored address has an index but
   * misses its `key_` or `name_` entry, wherever that address comes in the
   * iteration order.
   */
  lemma LoadRejectsIndexedWithoutKeyOrName(prefs: Prefs, order: seq<string>, mac: string)
    requires mac in order
    requires IndexKey(mac) in prefs && prefs[IndexKey(mac)].IntValue? && prefs[IndexKey(mac)].i != -1
    requires KeyKey(mac) !in prefs || NameKey(mac) !in prefs
    ensures Load(prefs, order).Err?
  {
    match GetStringSet(prefs, ALL_MAC, {})
    case Err(_) =>
    case Ok(macSet) =>
      forall slots ensures Visit(prefs, slots, mac).Err? {
        IndexedNeedsKeyAndName(prefs, slots, mac);
      }
      FillFailsOnFailedVisit(prefs, Empty(|macSet|), order, mac);
  }

  /** Distinct addresses hold the filled slots. */
  ghost predicate SlotsDistinct(res: seq<Option<Device>>) {
    forall i, j :: 0 <= i < j < |res| && res[i].Some? && res[j].Some? ==> res[i].value.mac != res[j].value.mac
  }

  lemma {:induction false} FillKeepsSlotsDistinct(prefs: Prefs, res: seq<Option<Device>>, macs: seq<string>)
    requires SlotsDistinct(res)
    requires forall i, j :: 0 <= i < j < |macs| ==> macs[i] != macs[j]
    requires forall j :: 0 <= j < |res| && res[j].Some? ==> res[j].value.mac !in macs
    ensures Fill(prefs, res, macs).Ok? ==> SlotsDistinct(Fill(prefs, res, macs).value)
    decreases |macs|
  {
    if macs != [] && Visit(prefs, res, macs[0]).Ok? {
      var next := Visit(prefs, res, macs[0]).value;
      assert forall j :: 0 <= j < |next| && next[j].Some? ==> next[j].value.mac in {macs[0]} || next[j] == res[j];
      forall j | 0 <= j < |next| && next[j].Some? ensures next[j].value.mac !in macs[1..] {
        if next[j].value.mac == macs[0] {
          assert forall k :: 0 < k < |macs| ==> macs[k] != macs[0];
        } else {
          assert next[j] == res[j];
        }
      }
      FillKeepsSlotsDistinct(prefs, next, macs[1..]);
    }
  }

  lemma {:induction false} PresentFrom(res: seq<Option<Device>>, d: Device)
    requires d in Present(res)
    ensures exists j :: 0 <= j < |res| && res[j] == Some(d)
  {
    if res != [] {
      if res[0].Some? && d == res[0].value {
      } else {
        assert d in Present(res[1..]);
        PresentFrom(res[1..], d);
        var j :| 0 <= j < |res[1..]| && res[1..][j] == Some(d);
        assert res[j + 1] == Some(d);
      }
    }
  }

  lemma {:induction false} PresentUnique(res: seq<Option<Device>>)
    requires SlotsDistinct(res)
    ensures UniqueMacs(Present(res))
  {
    if res != [] {
      PresentUnique(res[1..]);
      if res[0].Some? {
        var rest := Present(res[1..]);
        forall k | 0 <= k < |rest| ensures rest[k].mac != res[0].value.mac {
          PresentFrom(res[1..], rest[k]);
          var j :| 0 <= j < |res[1..]| && res[1..][j] == Some(rest[k]);
          assert res[j + 1] == Some(rest[k]);
        }
      }
    }
  }

  /** Whatever the file holds, a successful load gives a list with distinct addresses. */
  lemma LoadedMacsUnique(prefs: Prefs, order: seq<string>)
    requires IteratesMacSet(prefs, order)
    ensures Load(prefs, order).Ok? ==> UniqueMacs(Load(prefs, order).value)
  {
    var macSet := GetStringSet(prefs, ALL_MAC, {});
    if macSet.Ok? {
      FillKeepsSlotsDistinct(prefs, Empty(|macSet.value|), order);
      var filled := Fill(prefs, Empty(|macSet.value|), order);
      if filled.Ok? {
        PresentUnique(filled.value);
      }
    }
  }

  // ------------------------------------------------------------ store, then load

  lemma {:induction false} FillEncoded(ds: seq<Device>, res: seq<Option<Device>>, rest: seq<string>)
    requires UniqueMacs(ds) && |res| == |ds|
    requires forall i, j :: 0 <= i < j < |rest| ==> rest[i] != rest[j]
    requires forall m :: m in rest ==> m in Macs(ds)
    ensures Fill(Encoded(ds), res, rest) ==
      Ok(seq(|ds|, j requires 0 <= j < |ds| => if ds[j].mac in rest then Some(ds[j]) else res[j]))
    decreases |rest|
  {
    var prefs := Encoded(ds);
    if rest == [] {
      assert seq(|ds|, j requires 0 <= j < |ds| => if ds[j].mac in rest then Some(ds[j]) else res[j]) == res;
    } else {
      var m := rest[0];
      assert m in Macs(ds);
      var k := IndexOfMac(ds, m);
      var next := res[k := Some(ds[k])];
      VisitEncoded(ds, res, k);
      assert Fill(prefs, res, rest) == Fill(prefs, next, rest[1..]);
      assert forall n :: n in rest[1..] ==> n in rest;
      FillEncoded(ds, next, rest[1..]);
      forall j | 0 <= j < |ds|
        ensures (if ds[j].mac in rest[1..] then Some(ds[j]) else next[j])
             == (if ds[j].mac in rest then Some(ds[j]) else res[j])
      {
        if j == k {
          assert ds[j].mac in rest;
        } else {
          assert ds[j].mac != m;
          assert ds[j].mac in rest <==> ds[j].mac in rest[1..] by {
            assert rest == [m] + rest[1..];
          }
        }
      }
      assert seq(|ds|, j requires 0 <= j < |ds| => if ds[j].mac in rest[1..] then Some(ds[j]) else next[j])
          == seq(|ds|, j requires 0 <= j < |ds| => if ds[j].mac in rest then Some(ds[j]) else res[j]);
    }
  }

  lemma {:induction false} PresentAll(ds: seq<Device>)
    ensures Present(seq(|ds|, j requires 0 <= j < |ds| => Some(ds[j]))) == ds
  {
    if ds != [] {
      var all := seq(|ds|, j requires 0 <= j < |ds| => Some(ds[j]));
      assert all[1..] == seq(|ds[1..]|, j requires 0 <= j < |ds[1..]| => Some(ds[1..][j]));
      PresentAll(ds[1..]);
      assert ds == [ds[0]] + ds[1..];
    }
  }

  lemma {:induction false} UniqueMacsCount(ds: seq<Device>)
    requires UniqueMacs(ds)
    ensures |Macs(ds)| == |ds|
  {
    if ds != [] {
      var last := ds[|ds| - 1];
      var init := ds[..|ds| - 1];
      UniqueMacsCount(init);
      MacsSnoc(ds, |ds| - 1);
      assert ds[..|ds|] == ds;
      assert last.mac !in Macs(init);
    }
  }

  /**
   * Loading what `storeDevices` wrote for a list with distinct addresses
   * gives the same list in the same order, whatever order the address set
   * is walked in.
   */
  lemma StoreLoadRoundTrip(ds: seq<Device>, order: seq<string>)
    requires UniqueMacs(ds) && Enumerates(order, Macs(ds))
    ensures IteratesMacSet(Encoded(ds), order)
    ensures Load(Encoded(ds), order) == Ok(ds)
  {
    var prefs := Encoded(ds);
    assert GetStringSet(prefs, ALL_MAC, {}) == Ok(Macs(ds));
    UniqueMacsCount(ds);
    FillEncoded(ds, Empty(|ds|), order);
    var all := seq(|ds|, j requires 0 <= j < |ds| => Some(ds[j]));
    assert seq(|ds|, j requires 0 <= j < |ds| => if ds[j].mac in order then Some(ds[j]) else Empty(|ds|)[j]) == all;
    assert Fill(prefs, Empty(|Macs(ds)|), order) == Ok(all);
    PresentAll(ds);
  }
}
