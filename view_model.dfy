/**
 * `MainViewModel` (ui/main/MainViewModel.kt): the live device list, the
 * preferences file behind it, and the single current-task slot that drives
 * an unlock.
 *
 * Every operation is one atomic step here; the coroutines that the source
 * launches for each of them, and the LiveData delivery, are not modelled.
 */
module ViewModel {
  import opened Wrappers
  import opened Devices
  import opened DeviceStore

  class MainViewModel {
    /** `_devices.value`. Before the loader posts a list it is null, which every operation treats as the empty list. */
    var devices: seq<Device>
    /** The preferences file "pslock_devices". */
    var prefs: Prefs
    /** The exception the loader in `init` threw, if it threw. */
    var loadError: Option<LoadError>
    /** Whether `onTaskUpdated` is installed, that is, whether the `currentTask` flow is being collected. */
    var observed: bool
    /** `_currentTask`. */
    var currentTask: Option<Device>
    /** The devices the `currentTask` flow has offered, oldest first. */
    var emitted: seq<Device>

    /** The list never holds two entries for one address. */
    ghost predicate Valid()
      reads this
    {
      UniqueMacs(devices)
    }

    /** The file holds the list: reloading it, in any order the address set is iterated, gives the list back. */
    ghost predicate Persisted()
      reads this
    {
      forall order :: Enumerates(order, Macs(devices)) ==> Load(prefs, order) == Ok(devices)
    }

    /** `init`: load the list from the file, visiting the stored addresses in `order`. */
    constructor (stored: Prefs, order: seq<string>)
      requires IteratesMacSet(stored, order)
      ensures Valid()
      ensures prefs == stored && !observed && currentTask == None && emitted == []
      ensures Load(stored, order).Ok? ==> devices == Load(stored, order).value && loadError == None
      ensures Load(stored, order).Err? ==> devices == [] && loadError == Some(Load(stored, order).error)
    {
      var loaded := LoadDevices(stored, order);
      LoadedMacsUnique(stored, order);
      prefs := stored;
      observed := false;
      currentTask := None;
      emitted := [];
      if loaded.Ok? {
        devices := loaded.value;
        loadError := None;
      } else {
        devices := [];
        loadError := Some(loaded.error);
      }
    }

    /** `storeDevices`: the file becomes exactly the encoding of `ds`. */
    method StoreDevices(ds: seq<Device>)
      modifies this`prefs
      ensures prefs == Encoded(ds)
    {
      prefs := EditDevices(ds);
    }

    /**
     * `onNewDevice`: a copy of the list is edited in place (swap with the
     * front, or insert at the front), posted, and stored.
     */
    method OnNewDevice(device: Device)
      modifies this`devices, this`prefs
      ensures devices == Upsert(old(devices), device)
      ensures prefs == Encoded(devices)
      ensures old(Valid()) ==> Valid() && Persisted()
    {
      var twin := devices;
      var i := IndexOfMac(twin, device.mac);
      if i != -1 {
        var newDevice := twin[i].(key := device.key);
        twin := twin[i := twin[0]];
        twin := twin[0 := newDevice];
      } else {
        twin := [device] + twin;
      }
      assert twin == Upsert(devices, device);
      if Valid() {
        UpsertKeepsMacsUnique(devices, device);
      }
      devices := twin;
      StoreDevices(twin);
      if Valid() {
        StoredListReloads();
      }
    }

    /** `updateDeviceName`: rename the entry in place; an unknown address changes nothing and stores nothing. */
    method UpdateDeviceName(mac: string, newName: string)
      modifies this`devices, this`prefs
      ensures devices == Rename(old(devices), mac, newName)
      ensures IndexOfMac(old(devices), mac) == -1 ==> devices == old(devices) && prefs == old(prefs)
      ensures IndexOfMac(old(devices), mac) != -1 ==> prefs == Encoded(devices)
      ensures old(Valid()) ==> Valid()
      ensures IndexOfMac(old(devices), mac) != -1 && old(Valid()) ==> Persisted()
    {
      var twin := devices;
      var i := IndexOfMac(twin, mac);
      if i != -1 {
        var newDevice := twin[i].(name := newName);
        twin := twin[i := newDevice];
        if Valid() {
          RenameKeepsMacsUnique(devices, mac, newName);
        }
        devices := twin;
        StoreDevices(twin);
        if Valid() {
          StoredListReloads();
        }
      }
    }

    /** A list with unique addresses, once stored, reloads as itself. */
    lemma StoredListReloads()
      requires Valid() && prefs == Encoded(devices)
      ensures Persisted()
    {
      forall order | Enumerates(order, Macs(devices))
        ensures Load(prefs, order) == Ok(devices)
      {
        StoreLoadRoundTrip(devices, order);
      }
    }

    /** The `currentTask` flow starts being collected: `onTaskUpdated` is installed. */
    method CollectCurrentTask()
      modifies this`observed
      ensures observed
    {
      observed := true;
    }

    /** The collection ends (`awaitClose`): the slot is cleared and `onTaskUpdated` removed. */
    method CloseCurrentTask()
      modifies this`observed, this`currentTask
      ensures !observed && currentTask == None
    {
      currentTask := None;
      observed := false;
    }

    /**
     * `onTaskUpdated?.invoke(task)`: only a value different from the one in
     * the slot replaces it, and only a non-null one is offered to the flow.
     */
    method UpdateTask(task: Option<Device>)
      modifies this`currentTask, this`emitted
      ensures !observed || task == old(currentTask) ==> currentTask == old(currentTask) && emitted == old(emitted)
      ensures observed && task != old(currentTask) ==> currentTask == task
      ensures task.None? ==> emitted == old(emitted)
      ensures observed && task.Some? && task != old(currentTask) ==> emitted == old(emitted) + [task.value]
    {
      if observed {
        if task != currentTask {
          currentTask := task;
          if task.Some? {
            emitted := emitted + [task.value];
          }
        }
      }
    }

    /**
     * `onNewTask`: an address not in the list does nothing; a known one fills
     * the slot with its entry and moves that entry to the front by `onNewDevice`.
     */
    method OnNewTask(deviceMac: string)
      modifies this`devices, this`prefs, this`currentTask, this`emitted
      ensures var i := IndexOfMac(old(devices), deviceMac);
        i == -1 ==>
          && devices == old(devices) && prefs == old(prefs)
          && currentTask == old(currentTask) && emitted == old(emitted)
      ensures var i := IndexOfMac(old(devices), deviceMac);
        i != -1 ==>
          && devices == old(devices)[i := old(devices)[0]][0 := old(devices)[i]]
          && prefs == Encoded(devices)
          && (observed && Some(old(devices)[i]) != old(currentTask) ==>
                currentTask == Some(old(devices)[i]) && emitted == old(emitted) + [old(devices)[i]])
          && (!observed || Some(old(devices)[i]) == old(currentTask) ==>
                currentTask == old(currentTask) && emitted == old(emitted))
      ensures old(Valid()) ==> Valid()
    {
      var i := IndexOfMac(devices, deviceMac);
      if i != -1 {
        var device := devices[i];
        UpsertOwnEntry(devices, i);
        UpdateTask(Some(device));
        OnNewDevice(device);
      }
    }

    /** `onTaskCompleted`: clears the slot without offering anything. */
    method OnTaskCompleted()
      modifies this`currentTask, this`emitted
      ensures emitted == old(emitted)
      ensures currentTask == if observed then None else old(currentTask)
    {
      UpdateTask(None);
    }
  }
}
