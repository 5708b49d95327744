# Sensor node measurement registry, in Dafny

This project models the measurement registry of the pico-bug sensor node firmware (class `Sensor` in `sensor.py`) and proves properties of the model. A node:

- claims pins for analog sources, checking that each pin is unused and ADC-capable;
- keeps two name-keyed registries of sources, `measurement_functions` and `init_functions`, with last-write-wins assignment, iterated in insertion order as CPython's `dict` does (an assumption on MicroPython, see "## Left out");
- holds one I2C bus handle, created on first use if the constructor did not open one;
- builds a reading snapshot `{"sensor": name, "data": {…}}` by calling every measurement source in insertion order.

Files:

- `wrappers.dfy` (module `Wrappers`): `Option`, `Result` and `Outcome`, which stand for `None`, a return value or exception, and a call that returns nothing.
- `ordered_dict.dfy` (module `OrderedDict`): an insertion-ordered `dict`, as in CPython 3.7 and later, represented by its `items()`. This is a list of (key, value) pairs with distinct keys, in insertion order. `Put` is `d[k] = v`; `Get` is `d.get(k)`.
- `sensor.dfy` (module `SensorNode`): the class `Sensor`, which has the fields `pins`, `measurementFunctions`, `initFunctions` and `bus`, and a ghost `busLog` of the I2C transactions issued. The file also holds the source kinds, the specification function `Scan` of the snapshot comprehension, and the lemmas.

A registry entry is a `Source`:

- `Analog(pin)`: the bound method `ADC(pin).read_u16`.
- `DeferredWrite(address, cmd)`: the closure `lambda: self.write_i2c(address, cmd)`.
- `EagerResult`: the value an eager `write_i2c` call left in the dict. The body of `write_i2c` has no return statement, and the model takes the `try_until_i2c` wrapper around it to return `None` as well, so the value is `None`.

The object invariant `Sensor.Valid` has four parts:

- Both dicts are well formed.
- Every analog entry reads a claimed ADC pin, and no two analog entries share a pin.
- Only the measurement dict holds analog entries.
- While there is no handle, nothing has touched the bus and no entry holds the `None` of an eager write.

Every state-changing method keeps this invariant.

Two behaviours of the code are modelled as the code has them:

- **A rejected non-ADC pin stays claimed.** The pin is added to `pins` before the ADC check, so a later registration of that pin fails as "already in use" (`RejectedPinStaysClaimed`).
- **A hashed command is written at registration.** `write_i2c(address, hash_func(cmd))` runs immediately, and its result (`None`) is stored instead of a callable. Calling that `None` in `measurements` raises a `TypeError`. So once a hashed *measure* command is registered, every snapshot fails while that name still holds `None`, after issuing exactly the deferred writes of the entries before the first entry that holds `None` (`HashedMeasureBreaksSnapshot`, `ScanFailsAtFirstEager`, `ScanWritesOnFailure`). Registering the name again, unhashed or as an analog source, replaces the `None`.

These points also follow the code, where a cleaner design would differ:

- Registration errors are `ValueError`s. They are modelled as `PinInUse`, `InvalidAdcPin` and `InvalidCmdType`.
- A source that raises during a snapshot aborts the whole snapshot. It is not replaced by an error marker.
- Both I2C registration branches keep the code's asymmetry: one defers the write, the other writes at once.

Hardware values are not modelled as numbers:

- An ADC reading is the symbolic `AdcRead(pin)`, meaning "what `read_u16` returned for that pin".
- The bytes `readfrom` returns come from a function parameter, `readfrom`.
- The writes and reads on the bus are recorded in the ghost `busLog`.

## Model

| member | source | states |
|---|---|---|
| `SensorNode.Sensor.constructor` | sensor.py:11-38 | Starts from no claimed pins and two empty dicts. Opens the bus on pins (0, 1) exactly when `I2CSensor` is set. Keeps the identity, topic and interval. Establishes the invariant. |
| `SensorNode.Sensor.RegisterAnalog` | sensor.py:46-57 | A claimed pin fails with `PinInUse` and changes nothing. A non-ADC pin fails with `InvalidAdcPin` but is now claimed, and no dict changes. Otherwise the result is `Pass`: exactly that pin is added, and `measurement_functions[name]` becomes that pin's ADC reader. `init_functions`, the bus and the bus log never change. |
| `SensorNode.Sensor.RegisterI2c` | sensor.py:60-81 | A `cmd_type` other than "init"/"measure" fails with `InvalidCmdType` and changes nothing. Otherwise only the selected dict changes, by `d[name] = entry`, and `pins` never changes. Without `hash_func`, the entry is `DeferredWrite(address, cmd)` and nothing is written. With it, the entry is `EagerResult`, and exactly one write of `hash_func(cmd)` to `address` is issued, opening the bus if needed. |
| `SensorNode.Sensor.ReadI2c` | sensor.py:89-92 | Opens the bus on pins (1, 0) only if there is no handle, and never replaces an existing one. Logs one read and returns the device's reply. |
| `SensorNode.Sensor.WriteI2c` | sensor.py:94-98 | Opens the bus on pins (1, 0) only if there is no handle, and never replaces an existing one. Logs exactly one write of `data` to `address`. The registry does not change. |
| `SensorNode.Sensor.Invoke` | sensor.py:106 | Calling a stored value: an ADC reader reads its pin without bus traffic. A deferred write issues its one write and yields `None`. An eager result is not callable. |
| `SensorNode.Sensor.CollectReadings` | sensor.py:105-107 | The loop calls the entries in insertion order. Its result, bus log and bus are exactly those of `Scan` over the whole registry. The registry does not change. |
| `SensorNode.Sensor.Measurements` | sensor.py:101-110 | The snapshot is tagged with `sensor_name`. Its data keys are the keys of `measurement_functions` in insertion order, and their values are those of `Scan`. A raising entry makes the whole call raise. |
| `SensorNode.Scan` | sensor.py:106 | Succeeds exactly when none of the entries scanned holds `None`. On success, item j of the data has the registry's key j and the value its source yields. On failure, the error is `NotCallable`. The writes issued never outnumber the entries. |
| `SensorNode.SnapshotKeys` | sensor.py:105-107 | The data of a successful scan is a well-formed dict whose keys are the registry's keys, in the registry's order. |
| `SensorNode.ScanFailsAtFirstEager` | sensor.py:81 | A failing scan names the first entry that holds `None`, and every entry before it is callable. |
| `SensorNode.ScanStopsAtFailure` | sensor.py:106 | Once an entry has raised, scanning further entries changes neither the writes nor the error. |
| `SensorNode.ScanWrites` | sensor.py:79 | A scan that does not raise issues exactly one write per deferred-write entry, with that entry's address and command, in insertion order. |
| `SensorNode.ScanWritesOnFailure` | sensor.py:79-81 | A scan that reaches an entry holding `None`, with every entry before it callable, raises, and it has issued exactly the deferred writes of the entries before that one, in insertion order. |
| `SensorNode.DeferredCommandsAppend` | sensor.py:79 | The writes of a sequence of entries followed by one more are the earlier writes followed by that entry's write. |
| `SensorNode.ClaimKeepsPinInvariants` | sensor.py:52-57 | Binding a name to the reader of an unclaimed ADC pin, and claiming the pin, keeps every analog entry on a distinct claimed ADC pin. |
| `SensorNode.I2cEntryKeepsPinInvariants` | sensor.py:78-81 | Binding a name to an I2C entry keeps the analog pin invariants. It adds no analog entry, and it adds no `None` entry when the entry is a deferred write. |
| `SensorNode.RejectedPinStaysClaimed` | sensor.py:49-55 | Registering a non-ADC pin fails as invalid. Registering the same pin again, under any name, then fails as in use. The pin stays claimed and the measurement dict does not change. |
| `SensorNode.HashedMeasureBreaksSnapshot` | sensor.py:80-81 | A hashed measure registration issues the write of `hash(cmd)` at once. The next snapshot then raises `NotCallable`. |
| `SensorNode.ReRegistrationOverwrites` | sensor.py:71-79 | Registering a measure command twice under one name leaves the dict as if only the second registration had happened. The name then maps to the second command. |
| `SensorNode.TwoAnalogSources` | sensor.py:46-57 | Two unclaimed distinct ADC pins both register, both pins become claimed, and each of the two names maps to its own pin's reader. |
| `OrderedDict.Empty` | sensor.py:17-18 | `dict()` is well formed and has no items. |
| `OrderedDict.Put` | sensor.py:79-81 | `d[k] = v` keeps the keys distinct, and every pair keeps its key and position. Only the pair of `k` changes, and it now holds `v`. `k` is appended exactly when it was new. |
| `OrderedDict.PutGet` | sensor.py:79-81 | After `d[k] = v`, `d.get(k)` is `v`, and every other key reads as before. |
| `OrderedDict.PutTwice` | sensor.py:79-81 | Assigning one key twice equals assigning only the second value: last write wins. |

## Left out

- OrderedDict.Put: the model takes an insertion-ordered `dict`, as CPython 3.7 and later has. The firmware runs on MicroPython (its imports are `machine`, `umqtt.simple` and `time.sleep_ms`), whose built-in `dict` is a hash table that iterates in an implementation-defined order; only its `collections.OrderedDict` keeps insertion order. Every statement about order therefore holds only under this assumption: "in insertion order" in `ScanWrites`, `ScanWritesOnFailure` and `CollectReadings`, "the first entry that holds `None`" in `ScanFailsAtFirstEager`, "in the registry's order" in `SnapshotKeys` and `Measurements`, and which deferred writes a failing snapshot has already issued.
- The `machine` hardware calls (`ADC.read_u16`, `SoftI2C.writeto`, `readfrom` and `scan`, `Pin.on` and `off`) are opaque. ADC readings are symbolic, `readfrom`'s reply is a parameter, and writes and reads appear only in the ghost bus log.
- SensorNode.Sensor.WriteI2c: the `try_until_i2c` retry decorator (sensor.py:94) lives in `util`, which is not part of this model. Its policy is unknown, so every write is modelled as a single successful one, and the decorated call is assumed to return `None` (which is what a deferred entry yields and what a hashed registration stores).
- The `time.sleep` and `sleep_ms` delays (sensor.py:99, 122, 135) are timing and are left out.
- `publish`, the MQTT client and the network connection (sensor.py:112-122, most of the connection code commented out in the constructor) are network I/O and are left out. So are `status`, `network`, `mqtt_handler` and the indicator pin.
- The endless `run` loop with its `print` output (sensor.py:125-135) and the `print(target_dict)` in registration are output, not state.
- SensorNode.Sensor.Measurements: the exact text `json.dumps` produces is not modelled. The snapshot is a structured value.
- The `__main__` demo block (sensor.py:139-151) is a test driver.
- SensorNode.Sensor.RegisterI2c: `hash_func` is modelled as a total, pure function on bytes, so a hash function that raises (which in the code happens after the `cmd_type` check and before any write or dict change) or that has side effects is not modelled.
- SensorNode.Sensor.RegisterI2c: the closure of an unhashed registration captures the caller's `cmd` object, which may be a mutable `bytearray` (as in the demo block). The model stores the bytes as a value at registration, so a caller that changes the object afterwards, and the changed bytes a later snapshot would then send, are not modelled.
- SensorNode.Sensor.ReadI2c: the `readfrom` parameter stands for the device and is not bound to return exactly `numBytes` bytes, so the model does not promise the reply's length.
- SensorNode.Sensor.Invoke: a reading is the symbolic `AdcRead(pin)`, so two reads of one pin are the same value in the model, while the hardware returns a fresh sample each time. No contract depends on two readings differing.
- SensorNode.Sensor.RegisterI2c: `num_bytes` is accepted but, as in the code, unused. Nothing checks that addresses are 7-bit or that commands are bytes beyond their type.
- Pins, addresses and names are unbounded integers and strings. Python accepts any hashable value as a pin.
