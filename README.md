# pslock: device registry, pairing and unlock flows, QR credentials

A Dafny model of the logic inside the pslock Android client. The client pairs a
phone with a Bluetooth lock from a scanned QR code, and later unlocks that lock
on demand. The model covers three parts:

- **`MainViewModel`** (`view_model.dfy`, `devices.dfy`, `device_store.dfy`).
  - The ordered list of paired devices.
  - The preferences file "pslock_devices" that holds the list.
  - The single current-task slot that drives an unlock.

  `MainViewModel` is a class with `devices`, `prefs` and `currentTask` fields. Its
  methods are proved against pure specifications:
  - `Upsert` for `onNewDevice`;
  - `Rename` for `updateDeviceName`;
  - `Encoded` for what `storeDevices` writes;
  - `Load` for the loader in `init`.

  The loader is a loop over an array of nullable slots. The lemmas prove:
  - addresses stay unique;
  - `onNewDevice` swaps an existing entry with the front instead of rotating it;
  - storing then loading gives back the same list in the same order.
- **The two flows of `MainFragment`** (`radio.dfy`, `framing.dfy`, `flows.dfy`).
  - Pairing from a QR code, and unlocking a stored device.
  - Each looks the lock up (bonded devices first, then a discovery), bonds if needed, connects, and writes a key.
  - Each then reads a response framed by the sentinel byte 0x20 into a 32-byte (pairing) or 16-byte (unlock) buffer, within a 300 ms or 200 ms deadline.
  - The poll loop is a method over an `array`, proved against the declarative `ReadSpec`.
  - The flows are functions. The methods `RunPairing` and `RunUnlock` drive the view model with them.
- **`QRCode.parse`** (`qr_code.dfy`, `bytes.dfy`).
  - The chain of checks on the scanned URL: the host; the `mac`, `key` and `iv` parameters; base64, hex and decryption.
  - On success it gives the base64url text of the plaintext.
  - okio's hex and base64 codecs are implemented concretely, and both round trips are proved.

URL parsing (okhttp `HttpUrl`) and AES/CBC/PKCS5 decryption are parameters of the
model, as the function-valued fields of `QRCodes.Platform`. The native AES key is
a field of `Platform` too. The Bluetooth side of an attempt is a value,
`Flows.Link`. It holds:
- whether Bluetooth is on, and whether the user turns it on when asked;
- the bonded devices, and the devices a discovery reports;
- what `createBond` returns, and the bond-state broadcasts;
- whether connect and write succeed;
- the chunks each poll of the input stream finds.

## Model

| member | source | states |
|---|---|---|
| ViewModel.MainViewModel.constructor | app/src/main/java/top/ceclin/pslock/ui/main/MainViewModel.kt:60-88 | The list is what the loader reads from the file, or empty with the loader's exception recorded. Addresses are unique. The current-task slot is empty and not observed. |
| ViewModel.MainViewModel.StoreDevices | app/src/main/java/top/ceclin/pslock/ui/main/MainViewModel.kt:90-113 | The file becomes exactly the encoding of the given list. |
| ViewModel.MainViewModel.OnNewDevice | app/src/main/java/top/ceclin/pslock/ui/main/MainViewModel.kt:115-130 | The in-place edit of the copied list is `Upsert`, and the file is the encoding of the new list. Unique addresses stay unique, and reloading the file gives the new list back. |
| ViewModel.MainViewModel.UpdateDeviceName | app/src/main/java/top/ceclin/pslock/ui/main/MainViewModel.kt:132-145 | The list becomes `Rename`. An unknown address changes neither the list nor the file. A known one re-stores the file, and reloading it gives the renamed list back. Unique addresses stay unique. |
| ViewModel.MainViewModel.StoredListReloads | app/src/main/java/top/ceclin/pslock/ui/main/MainViewModel.kt:67-113 | A list with unique addresses, once stored, loads back as itself in every iteration order of the address set. |
| ViewModel.MainViewModel.CollectCurrentTask | app/src/main/java/top/ceclin/pslock/ui/main/MainViewModel.kt:27-35 | Collecting the `currentTask` flow installs the update callback. |
| ViewModel.MainViewModel.CloseCurrentTask | app/src/main/java/top/ceclin/pslock/ui/main/MainViewModel.kt:36-39 | Closing the flow clears the slot and removes the callback. |
| ViewModel.MainViewModel.UpdateTask | app/src/main/java/top/ceclin/pslock/ui/main/MainViewModel.kt:28-35 | Without a collector, or for a value equal to the current one, nothing changes and nothing is emitted. Otherwise the slot takes the value, and only a non-null value is appended to what the flow emitted. |
| ViewModel.MainViewModel.OnNewTask | app/src/main/java/top/ceclin/pslock/ui/main/MainViewModel.kt:42-48 | An unknown address changes nothing at all. A known one fills the current-task slot with its entry (emitted when it differs) and swaps that entry with the front, re-storing the file. |
| ViewModel.MainViewModel.OnTaskCompleted | app/src/main/java/top/ceclin/pslock/ui/main/MainViewModel.kt:50-52 | Clears the slot when observed, and never emits. |
| Devices.IndexOfMac | app/src/main/java/top/ceclin/pslock/ui/main/MainViewModel.kt:119 | `indexOfFirst`: it is the first position with the address, or -1 exactly when no entry has it. |
| Devices.Upsert | app/src/main/java/top/ceclin/pslock/ui/main/MainViewModel.kt:118-126 | `onNewDevice`'s edit of the list. A new address adds one entry; a known one keeps the length. The front entry always carries the device's address and key. Its full shape is stated by `UpsertKnown` and `UpsertUnknown`, and its invariants by `UpsertKeepsMacsUnique` and `UpsertIdempotent`. |
| Devices.UpsertKnown | app/src/main/java/top/ceclin/pslock/ui/main/MainViewModel.kt:118-125 | For a known address at i: the length is unchanged; the front holds that address with the new key and the old name; the old front is at i; every other position is unchanged. |
| Devices.UpsertUnknown | app/src/main/java/top/ceclin/pslock/ui/main/MainViewModel.kt:126 | A new address is inserted at the front and every other entry moves up by one. |
| Devices.UpsertFront | app/src/main/java/top/ceclin/pslock/ui/main/MainViewModel.kt:118-126 | After an upsert the front entry has the device's address and key, and the address set gains exactly that address. |
| Devices.UpsertKeepsMacsUnique | app/src/main/java/top/ceclin/pslock/ui/main/MainViewModel.kt:119-126 | An upsert never introduces a duplicate address. |
| Devices.UpsertIdempotent | app/src/main/java/top/ceclin/pslock/ui/main/MainViewModel.kt:119-126 | A second upsert of the same device leaves the list as the first one left it. |
| Devices.UpsertOwnEntry | app/src/main/java/top/ceclin/pslock/ui/main/MainViewModel.kt:43-46 | Upserting the list's own entry at i (as `onNewTask` does) swaps positions 0 and i. |
| Devices.Rename | app/src/main/java/top/ceclin/pslock/ui/main/MainViewModel.kt:135-143 | `updateDeviceName`'s edit of the list keeps the length, and every entry's address and key. That only the first matching entry's name changes is `RenameOnlyRenames`; `RenameAbsent` and `RenameKeepsMacsUnique` give the rest. |
| Devices.RenameOnlyRenames | app/src/main/java/top/ceclin/pslock/ui/main/MainViewModel.kt:136-143 | A rename keeps the length, the order, every address and every key. It changes only the name of the first entry with the address. |
| Devices.RenameAbsent | app/src/main/java/top/ceclin/pslock/ui/main/MainViewModel.kt:136-138 | Renaming an address that is not in the list leaves the list as it was. |
| Devices.RenameKeepsMacsUnique | app/src/main/java/top/ceclin/pslock/ui/main/MainViewModel.kt:136-143 | A rename keeps addresses unique. |
| DeviceStore.Encoded | app/src/main/java/top/ceclin/pslock/ui/main/MainViewModel.kt:94-112 | The file the store writes: `all_mac` is the set of addresses, and each device has its `index_`, `key_` and `name_` entries. The layout is stated by `EncodedLayout` and `EncodedAt`. The loader reads it back by `StoreLoadRoundTrip`. |
| DeviceStore.EditDevices | app/src/main/java/top/ceclin/pslock/ui/main/MainViewModel.kt:94-112 | The cleared editor's loop over the list commits exactly `Encoded`. |
| DeviceStore.MacsSnoc | app/src/main/java/top/ceclin/pslock/ui/main/MainViewModel.kt:97-99 | The address set after one more device gains that device's address. |
| DeviceStore.EntryNamesDistinct | app/src/main/java/top/ceclin/pslock/ui/main/MainViewModel.kt:100-110 | The `index_`, `name_` and `key_` entries of different addresses never collide with each other or with `all_mac`. |
| DeviceStore.WrittenAt | app/src/main/java/top/ceclin/pslock/ui/main/MainViewModel.kt:98-109 | After the first n devices, each one's `index_` holds its position, and its `name_` and `key_` hold its name and key. |
| DeviceStore.WrittenKeys | app/src/main/java/top/ceclin/pslock/ui/main/MainViewModel.kt:96-109 | After `clear()`, the file holds exactly the three entries of each device written so far. |
| DeviceStore.EncodedLayout | app/src/main/java/top/ceclin/pslock/ui/main/MainViewModel.kt:96-110 | For unique addresses the stored file holds: each device's position, name and key; `all_mac` as the address set; and nothing else. |
| DeviceStore.EncodedAt | app/src/main/java/top/ceclin/pslock/ui/main/MainViewModel.kt:98-110 | The three entries of device k in the stored file. |
| DeviceStore.Load | app/src/main/java/top/ceclin/pslock/ui/main/MainViewModel.kt:67-82 | The loader as a function of the file and of the order of the address set. `LoadDevices` runs it as the array loop. `StoreLoadRoundTrip` makes it invert `Encoded`. `LoadedMacsUnique` makes every success have unique addresses, and `LoadRejectsIndexedWithoutKeyOrName` gives a failure. |
| DeviceStore.LoadDevices | app/src/main/java/top/ceclin/pslock/ui/main/MainViewModel.kt:67-82 | The loader's loop over an array of slots gives exactly `Load`, including the first exception it throws. |
| DeviceStore.UnindexedSkipped | app/src/main/java/top/ceclin/pslock/ui/main/MainViewModel.kt:71-72 | An address whose `index_` entry is absent (the default -1) or holds -1 is skipped. |
| DeviceStore.IndexedNeedsKeyAndName | app/src/main/java/top/ceclin/pslock/ui/main/MainViewModel.kt:73-77 | An indexed address without its `key_` or `name_` entry makes the load throw. |
| DeviceStore.FillFailsOnFailedVisit | app/src/main/java/top/ceclin/pslock/ui/main/MainViewModel.kt:70-79 | One address whose round throws makes the whole loop throw, wherever it comes in the order. |
| DeviceStore.LoadRejectsIndexedWithoutKeyOrName | app/src/main/java/top/ceclin/pslock/ui/main/MainViewModel.kt:67-80 | The loader throws whenever a stored address has an index but lacks its `key_` or `name_` entry. |
| DeviceStore.VisitEncoded | app/src/main/java/top/ceclin/pslock/ui/main/MainViewModel.kt:70-80 | Visiting a stored address fills its own slot with its device. |
| DeviceStore.FillKeepsSlotsDistinct | app/src/main/java/top/ceclin/pslock/ui/main/MainViewModel.kt:69-81 | Visiting distinct addresses never puts two devices with one address in the slots. |
| DeviceStore.PresentFrom | app/src/main/java/top/ceclin/pslock/ui/main/MainViewModel.kt:82 | Every device `filterNotNull` keeps comes from a slot. |
| DeviceStore.PresentUnique | app/src/main/java/top/ceclin/pslock/ui/main/MainViewModel.kt:78-82 | Slots with distinct addresses give a list with unique addresses. |
| DeviceStore.LoadedMacsUnique | app/src/main/java/top/ceclin/pslock/ui/main/MainViewModel.kt:67-82 | Whatever file is loaded, a loaded list never has two entries for one address. |
| DeviceStore.FillEncoded | app/src/main/java/top/ceclin/pslock/ui/main/MainViewModel.kt:70-81 | Visiting stored addresses in any order fills exactly their slots with their devices. |
| DeviceStore.PresentAll | app/src/main/java/top/ceclin/pslock/ui/main/MainViewModel.kt:82 | `filterNotNull` of all-present slots is the list itself. |
| DeviceStore.UniqueMacsCount | app/src/main/java/top/ceclin/pslock/ui/main/MainViewModel.kt:97-99 | For unique addresses, the stored address set has one element per device. |
| DeviceStore.StoreLoadRoundTrip | app/src/main/java/top/ceclin/pslock/ui/main/MainViewModel.kt:67-110 | Loading what `storeDevices` wrote, in whatever order the set is iterated, gives back the same list in the same order. |
| QRCodes.QueryParameter | app/src/main/java/top/ceclin/pslock/model/QRCode.kt:21 | It is absent when no query pair has the name. When present, it is the value of the first pair with that name. |
| QRCodes.QueryParameterFirst | app/src/main/java/top/ceclin/pslock/model/QRCode.kt:21 | With a repeated name, the answer is the value of the first pair that has it. |
| QRCodes.IssuerUrl | app/src/main/java/top/ceclin/pslock/model/QRCode.kt:18-20 | The text is accepted exactly when it parses as a URL with host `pslock.ceclin.top`. |
| QRCodes.Parse | app/src/main/java/top/ceclin/pslock/model/QRCode.kt:13-16 | A null scan result gives null. |
| QRCodes.ParseAccepts | app/src/main/java/top/ceclin/pslock/model/QRCode.kt:18-36 | A credential is produced exactly when the URL is the issuer's, `mac` is present, and the key decrypts. |
| QRCodes.ParseCredential | app/src/main/java/top/ceclin/pslock/model/QRCode.kt:21-36 | On success, `mac` is the query parameter verbatim, and `key` decodes back to exactly the decrypted plaintext. |
| QRCodes.ForeignHostRejected | app/src/main/java/top/ceclin/pslock/model/QRCode.kt:18-20 | A URL with another host gives null. |
| QRCodes.MalformedCredentialRejected | app/src/main/java/top/ceclin/pslock/model/QRCode.kt:21-42 | Any of these gives null and throws nothing: a missing `mac`, `key` or `iv`; a `key` that is not base64; an `iv` that is not hex; a failed decryption. |
| Bytes.Hex | app/src/main/java/top/ceclin/pslock/ui/main/MainFragment.kt:207 | `ByteString.hex()` gives two characters per byte. |
| Bytes.DecodeHex | app/src/main/java/top/ceclin/pslock/ui/main/MainFragment.kt:295 | `decodeHex` gives one byte per two characters, or fails. |
| Bytes.DecodeHexSome | app/src/main/java/top/ceclin/pslock/ui/main/MainFragment.kt:295 | Decoding succeeds exactly when the length is even and every character is a hex digit of either case. |
| Bytes.HexRoundTrip | app/src/main/java/top/ceclin/pslock/ui/main/MainFragment.kt:207-211 | Decoding the hex of some bytes gives those bytes back. |
| Bytes.HexIsSentinel | app/src/main/java/top/ceclin/pslock/ui/main/MainFragment.kt:315-317 | The hex is "20" exactly when the bytes are the single sentinel byte. |
| Bytes.Base64Url | app/src/main/java/top/ceclin/pslock/model/QRCode.kt:34 | okio's `base64Url()`. Its padded length is stated by `Base64UrlLength`, and its inverse by `Base64RoundTrip`. |
| Bytes.Base64UrlLength | app/src/main/java/top/ceclin/pslock/model/QRCode.kt:34 | `base64Url()` output is padded to a multiple of four characters. |
| Bytes.UnsextetsSextets | app/src/main/java/top/ceclin/pslock/model/QRCode.kt:34 | Regrouping the six-bit groups of some bytes into bytes gives the bytes back, including a last group of one or two bytes. |
| Bytes.SextetsOfUrlSafeChars | app/src/main/java/top/ceclin/pslock/model/QRCode.kt:34 | Reading back the URL-safe characters of six-bit groups gives the groups. |
| Bytes.TrimEndBase64Url | app/src/main/java/top/ceclin/pslock/model/QRCode.kt:34 | The decoder's trimming removes exactly the `=` padding. |
| Bytes.DecodeBase64 | app/src/main/java/top/ceclin/pslock/ui/main/MainFragment.kt:188 | okio's `decodeBase64()`, which gives null on bad input. `Base64RoundTrip` makes it invert `Base64Url`, and `TrimEndBase64Url` removes exactly the padding. |
| Bytes.Base64RoundTrip | app/src/main/java/top/ceclin/pslock/ui/main/MainFragment.kt:188 | okio `decodeBase64` of `base64Url()` gives the bytes back. |
| Framing.ReadFramed | app/src/main/java/top/ceclin/pslock/ui/main/MainFragment.kt:190-208 | The poll loop over a fixed buffer gives exactly `ReadSpec`: the bytes up to the first chunk ending in the sentinel, a timeout, or an overflow. |
| Framing.Poll | app/src/main/java/top/ceclin/pslock/ui/main/MainFragment.kt:193-204 | One poll either decides the read as `ReadSpec` does, or leaves the buffer holding exactly the bytes polled so far, with no terminator yet. |
| Framing.Put | app/src/main/java/top/ceclin/pslock/ui/main/MainFragment.kt:199 | `ByteBuffer.put` appends the chunk after the bytes already in the buffer. |
| Framing.ReadSpecOverflow | app/src/main/java/top/ceclin/pslock/ui/main/MainFragment.kt:199 | A chunk that does not fit, before any terminator, makes the read an overflow whatever follows. |
| Framing.ReadSpecResponse | app/src/main/java/top/ceclin/pslock/ui/main/MainFragment.kt:199-202 | The first terminating chunk that fits ends the read with all the bytes so far. |
| Framing.ResponseFrame | app/src/main/java/top/ceclin/pslock/ui/main/MainFragment.kt:190-208 | A response ends with the sentinel and fits the buffer. It is the concatenation of the chunks up to the first one, within the deadline, whose last byte is the sentinel. |
| Framing.ResponsePrefix | app/src/main/java/top/ceclin/pslock/ui/main/MainFragment.kt:193-206 | A response is a prefix of everything the lock sent. |
| Framing.TerminatorAnswers | app/src/main/java/top/ceclin/pslock/ui/main/MainFragment.kt:200-202 | Conversely, the first terminating chunk within the deadline gives that response when the bytes fit. |
| Framing.NoTerminatorTimesOut | app/src/main/java/top/ceclin/pslock/ui/main/MainFragment.kt:190-208 | Without a terminating chunk within the deadline the read times out, unless the bytes overflowed the buffer. |
| Framing.SentinelInsideChunk | app/src/main/java/top/ceclin/pslock/ui/main/MainFragment.kt:306-308 | A 0x20 that is not the last byte of its chunk ends nothing. |
| Framing.LateSentinelTimesOut | app/src/main/java/top/ceclin/pslock/ui/main/MainFragment.kt:297-314 | A sentinel arriving after the 200 ms of the unlock read is a timeout, not a response. |
| Framing.PromptSentinelAnswers | app/src/main/java/top/ceclin/pslock/ui/main/MainFragment.kt:297-314 | A sentinel alone, in time, is the unlock response. |
| Framing.LongAnswerOverflows | app/src/main/java/top/ceclin/pslock/ui/main/MainFragment.kt:298-305 | A 17-byte answer overflows the 16-byte unlock buffer. |
| Radio.Locate | app/src/main/java/top/ceclin/pslock/ui/main/MainFragment.kt:134-149 | The lookup does three things. It uses the first bonded device with the address, without a discovery. Otherwise it starts a discovery and uses the first device found with the address. It finds nothing exactly when neither list has the address. |
| Radio.Bond | app/src/main/java/top/ceclin/pslock/ui/main/MainFragment.kt:151-168 | A bonded device needs nothing. A refused `createBond` stops the attempt. Otherwise the first change of this device away from BONDING decides, and only BONDED lets the attempt continue. Without such a change the flow keeps waiting. |
| Radio.BondedNeedsNothing | app/src/main/java/top/ceclin/pslock/ui/main/MainFragment.kt:151-152 | An already bonded device never triggers `createBond`. |
| Radio.OtherChangesIgnored | app/src/main/java/top/ceclin/pslock/ui/main/MainFragment.kt:157-162 | A broadcast about another device, or one not leaving BONDING, does not decide the bond. |
| Flows.Exchange | app/src/main/java/top/ceclin/pslock/ui/main/MainFragment.kt:134-216 | The lock is missing exactly when the lookup finds nothing. Only the given payload is ever written. A response is exactly what `ReadSpec` gives after the write. |
| Flows.RunExchange | app/src/main/java/top/ceclin/pslock/ui/main/MainFragment.kt:180-208 | The socket steps and the poll loop, in order, give `Exchange`. |
| Flows.Pair | app/src/main/java/top/ceclin/pslock/ui/main/MainFragment.kt:100-220 | The pairing flow step by step gives `Pairing`. |
| Flows.Pairing | app/src/main/java/top/ceclin/pslock/ui/main/MainFragment.kt:100-220 | A pairing ends `Paired` only for scanned text that parses, with Bluetooth usable. The device then has the credential's address and the default name. The outcome is never an unjudged answer or an unlock verdict. The rest is stated by `PairingKeyNeverMissing`, `PairingSendsPlaintext`, `PairingCredential` and `PairedDevice`. |
| Flows.RunPairing | app/src/main/java/top/ceclin/pslock/ui/main/MainFragment.kt:133-220 | A successful pairing upserts the new device and stores the list, which then reloads as itself. Every other outcome leaves the list and the file untouched. Unique addresses stay unique. |
| Flows.RunUnlock | app/src/main/java/top/ceclin/pslock/ui/main/MainFragment.kt:224-331 | The unlock flow gives `Unlock`. Whatever the outcome, `onTaskCompleted` then clears an observed slot without emitting. |
| Flows.NotFoundSendsNothing | app/src/main/java/top/ceclin/pslock/ui/main/MainFragment.kt:134-149 | An attempt stops as not-found exactly when no bonded or discovered device has the address. A discovery was then run, and nothing is bonded or written. |
| Flows.BondedPeerSkipsDiscovery | app/src/main/java/top/ceclin/pslock/ui/main/MainFragment.kt:134-152 | When the first bonded device with the address is bonded, there is no discovery and no bond request, and the lock is neither missing nor unbonded. |
| Flows.SentOnlyAfterBond | app/src/main/java/top/ceclin/pslock/ui/main/MainFragment.kt:151-188 | Bytes are written only after the lock was found, the bond holds, and the socket connected. |
| Flows.PairingKeyNeverMissing | app/src/main/java/top/ceclin/pslock/ui/main/MainFragment.kt:188 | The `!!` on the decoded QR key never fires for a parsed credential. |
| Flows.PairingSendsPlaintext | app/src/main/java/top/ceclin/pslock/ui/main/MainFragment.kt:188 | Pairing writes exactly the plaintext decrypted from the QR code. |
| Flows.PairingCredential | app/src/main/java/top/ceclin/pslock/ui/main/MainFragment.kt:110-188 | A pairing that got past parsing and enabling exchanges the parsed credential's address and key. |
| Flows.PairedDevice | app/src/main/java/top/ceclin/pslock/ui/main/MainFragment.kt:207-211 | A paired device is the credential's address, the hex of the pairing response, and the name "无名锁". That key decodes back to the response. |
| Flows.PairedDeviceUnlocks | app/src/main/java/top/ceclin/pslock/ui/main/MainFragment.kt:295 | The key of a paired device always decodes. An unlock of it writes exactly the bytes the lock answered during pairing. |
| Flows.Unlock | app/src/main/java/top/ceclin/pslock/ui/main/MainFragment.kt:224-331 | An unlock succeeds only with Bluetooth usable, after the decoded stored key was written. Every answer is judged. The rest is stated by `UnlockedIffSentinel`, `OtherAnswerRejected` and `PairedDeviceUnlocks`. |
| Flows.UnlockedIffSentinel | app/src/main/java/top/ceclin/pslock/ui/main/MainFragment.kt:315-319 | Unlock succeeds exactly when Bluetooth is usable and the exchange answered the single byte 0x20. |
| Flows.OtherAnswerRejected | app/src/main/java/top/ceclin/pslock/ui/main/MainFragment.kt:315-317 | Any other answer is rejected with its hex. |

## Left out

- **Time.** Time is counted in polls. The deadline allows deadline / 5 ms polls (60 for pairing, 40 for unlock), and each poll finds one chunk (possibly empty).
  - The time a poll itself takes, and a deadline that falls in the middle of a poll, are not modelled.
  - Each `read(bytes)` is taken to fill all of `available`.
- **Concurrency.** Coroutine dispatch is not modelled: `launch`, `flowOn`, `postValue`, LiveData delivery and `conflate`.
  - Every view-model operation is one atomic step.
  - The race between two overlapping `onNewDevice` or `storeDevices` launches is not modelled.
- **Presentation.** Toasts, progress dialogs, Timber logging and the activity-result plumbing of the enable prompt are left out. The prompt's answer is `Link.enableGranted`.
- **Bluetooth plumbing.** The following are not modelled:
  - the adapter being absent (the wrappers of bt/Bluetooth.kt);
  - `cancelDiscovery`;
  - closing the socket.

  The bond-state broadcasts are a finite sequence, and a flow that never sees the change it waits for ends as `BondWaiting`.
- **Platform calls.** These are parameters (`QRCodes.Platform`), not computed:
  - `HttpUrl.parse`, and its query-parameter decoding;
  - AES/CBC/PKCS5 decryption;
  - the native `KeyProvider.AES_KEY`.
- **Stored value types.** The file's value types are limited to int, string and string set. Wrong-typed entries make the loader fail with `WrongType`, as `ClassCastException` does.
- **Hash-set order.** The order in which the platform's hash set iterates `all_mac` is a parameter of the loader. It is only required to list each stored address once.
- Flows.Exchange: the source does not catch every failure. The following escape the flow's `IOException` handler, so the attempt is abandoned with an uncaught exception:
  - an overflowing `ByteBuffer.put` (`BufferOverflowException`);
  - a key that does not decode: the `!!` on a null `decodeBase64` result throws, and `decodeHex` throws `IllegalArgumentException`.

  The model reports these as the outcomes `Overflowed` and `KeyUndecodable` instead. The handlers at `MainFragment.kt:213` and `MainFragment.kt:321` catch only `IOException`; the model follows the code in treating them as escaping rather than caught, and does not model what the escaped exception does to the coroutine scope.
- Flows.Exchange: a read failure is not modelled. `available()` and `read` can throw `IOException` inside the poll loop (`MainFragment.kt:193`, `:196`, `:300`, `:303`). The link's chunks cannot fail. The handlers at `MainFragment.kt:213` and `:321` would treat such a failure exactly like a timeout: pairing records nothing, and unlock reports failure.
- Radio.Locate: discovery is assumed to finish. `MainFragment.kt:137` and `:241` ignore the Boolean that `startDiscovery()` returns (`bt/Bluetooth.kt:41`). The discovered-device flow closes only on `ACTION_DISCOVERY_FINISHED` (`bt/Bluetooth.kt:75-77`). So a discovery that never starts, or never finishes, leaves the attempt waiting with no match. The model's `found` is a finite list whose end is the finish broadcast. Such an attempt therefore ends as `NotFound` in the model, where the app would keep waiting.
- ViewModel.MainViewModel.constructor: a loader failure is not caught in the source. The `RuntimeException` at `MainViewModel.kt:76`/`:78` and a `ClassCastException` from a wrong-typed entry are thrown inside `viewModelScope.launch(Dispatchers.IO)` (`MainViewModel.kt:61`) with no handler. They reach the thread's uncaught-exception handler, which ends the app in a release build. Only a debug build installs a handler that merely logs (`App.kt:24-28`). The model's `loadError` stands in for the escaped exception. The empty list the model keeps afterwards is the debug-build behaviour; a later `OnNewDevice` then overwrites the file with the new list, which only a debug build can reach.
- QRCodes.Parse: its own contract states only the null case; what it accepts and produces is stated by `ParseAccepts`, `ParseCredential`, `ForeignHostRejected` and `MalformedCredentialRejected`.
