/**
 * The measurement registry of a sensor node (class `Sensor` of sensor.py).
 *
 * A node claims pins for analog sources, keeps two name-keyed registries of
 * measurement sources (`measure` and `init`), and owns at most one I2C bus
 * handle, created lazily. The hardware is not modelled: the bus traffic the
 * node issues is recorded in a ghost log, and ADC and bus readings are
 * parameters.
 */
module SensorNode {
  import opened Wrappers
  import opened OrderedDict

  type Byte = b: int | 0 <= b < 0x100

  /** The pins with ADC capability on the target board (GP26, GP27, GP28 of the Pico W). */
  const AdcPins: set<int> := {26, 27, 28}

  /** What a registry entry holds. */
  datatype Source =
      /** the bound method `machine.ADC(pin).read_u16` */
    | Analog(pin: int)
      /** the closure `lambda: self.write_i2c(address, cmd)` */
    | DeferredWrite(address: int, cmd: seq<Byte>)
      /** the value an eager `write_i2c` call returned at registration, taken to be `None` */
    | EagerResult

  /** The exceptions the registry raises. */
  datatype Error =
      /** `ValueError("Pin … already in use")` */
    | PinInUse(pin: int)
      /** `ValueError("Pin … not a valid ADC pin")` */
    | InvalidAdcPin(pin: int)
      /** `ValueError("cmd_type must be one of: init, measure")` */
    | InvalidCmdType(cmdType: string)
      /** the `TypeError` of calling a registry entry that holds `None` */
    | NotCallable(name: string)

  /** A `machine.SoftI2C` handle and the pins it was opened on. */
  datatype BusHandle = SoftI2C(sda: nat, scl: nat)

  /** The handle the constructor opens when asked for an I2C sensor. */
  const ConstructorBus: BusHandle := SoftI2C(0, 1)

  /** The handle `read_i2c` and `write_i2c` open on first use. */
  const LazyBus: BusHandle := SoftI2C(1, 0)

  /** The handle in use after the lazy initialization of `read_i2c`/`write_i2c`. */
  function LazyInit(bus: Option<BusHandle>): (h: BusHandle)
  {
    match bus
    case Some(h) => h
    case None => LazyBus
  }

  /** One transaction on the I2C bus. */
  datatype BusOp = Write(address: int, data: seq<Byte>) | Read(address: int, numBytes: nat)

  /**
   * A value in the `data` part of a snapshot: what `read_u16` returned on the
   * ADC of a pin (the number itself is not modelled), or `None`.
   */
  datatype Reading = AdcRead(pin: int) | Null

  /** The structure `measurements` serializes: `{"sensor": …, "data": {…}}`. */
  datatype Snapshot = Snapshot(sensor: string, data: Dict<Reading>)

  /** The state of the snapshot comprehension: the bus writes issued so far, and the partial `data` or the exception. */
  datatype ScanState = ScanState(writes: seq<BusOp>, outcome: Result<Dict<Reading>, Error>)

  /** No entry among the first `n` holds `None`, so invoking each of them succeeds. */
  ghost predicate Callable(d: Dict<Source>, n: nat)
    requires n <= |d.items|
  {
    forall j :: 0 <= j < n ==> !d.items[j].1.EagerResult?
  }

  /** `out` is the `data` item produced by invoking the registry item `entry`. */
  ghost predicate Invoked(entry: (string, Source), out: (string, Reading))
  {
    && out.0 == entry.0
    && match entry.1
       case Analog(p) => out.1 == AdcRead(p)
       case DeferredWrite(_, _) => out.1 == Null
       case EagerResult => false
  }

  /**
   * The comprehension `{key: value() for key, value in d.items()}` after its
   * first `n` items. Invoking an analog source reads its pin's ADC, invoking
   * a deferred write issues the write and yields `None`, and calling the
   * `None` stored by an eager registration raises, which ends the
   * comprehension.
   */
  function Scan(d: Dict<Source>, n: nat): (s: ScanState)
    requires n <= |d.items|
    ensures s.outcome.Success? <==> Callable(d, n)
    ensures s.outcome.Success? ==>
      |s.outcome.value.items| == n &&
      forall j {:trigger s.outcome.value.items[j]} :: 0 <= j < n ==> Invoked(d.items[j], s.outcome.value.items[j])
    ensures s.outcome.Failure? ==> s.outcome.error.NotCallable?
    ensures |s.writes| <= n
  {
    if n == 0 then ScanState([], Success(Empty()))
    else
      var prev := Scan(d, n - 1);
      if prev.outcome.Failure? then prev
      else
        var (k, src) := d.items[n - 1];
        match src
        case Analog(p) =>
          ScanState(prev.writes, Success(Dict(prev.outcome.value.items + [(k, AdcRead(p))])))
        case DeferredWrite(a, c) =>
          ScanState(prev.writes + [Write(a, c)], Success(Dict(prev.outcome.value.items + [(k, Null)])))
        case EagerResult =>
          ScanState(prev.writes, Failure(NotCallable(k)))
  }

  /** A snapshot of a well-formed registry lists the registry's keys, in its order, each once. */
  lemma SnapshotKeys(d: Dict<Source>, n: nat)
    requires WellFormed(d) && n <= |d.items| && Scan(d, n).outcome.Success?
    ensures Keys(Scan(d, n).outcome.value) == Keys(d)[..n]
    ensures WellFormed(Scan(d, n).outcome.value)
  {
  }

  /** The next key a scan reaches is not yet in the partial snapshot. */
  lemma NextKeyIsNew(d: Dict<Source>, i: nat)
    requires WellFormed(d) && i < |d.items| && Scan(d, i).outcome.Success?
    ensures WellFormed(Scan(d, i).outcome.value)
    ensures Get(Scan(d, i).outcome.value, d.items[i].0).None?
  {
    SnapshotKeys(d, i);
  }

  /**
   * A scan that raises names the first entry among the first `n` that holds
   * `None`.
   */
  lemma {:induction false} ScanFailsAtFirstEager(d: Dict<Source>, n: nat)
    requires n <= |d.items| && Scan(d, n).outcome.Failure?
    ensures exists j :: 0 <= j < n && Callable(d, j) && d.items[j] == (Scan(d, n).outcome.error.name, EagerResult)
  {
    var prev := Scan(d, n - 1);
    if prev.outcome.Failure? {
      ScanFailsAtFirstEager(d, n - 1);
      var j :| 0 <= j < n - 1 && Callable(d, j) && d.items[j] == (prev.outcome.error.name, EagerResult);
      assert 0 <= j < n && Callable(d, j) && d.items[j] == (Scan(d, n).outcome.error.name, EagerResult);
    } else {
      assert Callable(d, n - 1) && d.items[n - 1] == (Scan(d, n).outcome.error.name, EagerResult);
    }
  }

  /** Once an invocation has raised, later items are never reached. */
  lemma {:induction false} ScanStopsAtFailure(d: Dict<Source>, i: nat, n: nat)
    requires i <= n <= |d.items|
    requires Scan(d, i).outcome.Failure?
    ensures Scan(d, n) == Scan(d, i)
    decreases n - i
  {
    if i < n {
      ScanStopsAtFailure(d, i, n - 1);
    }
  }

  /** The writes that invoking `items` one after another issues when none of them raises. */
  function DeferredCommands(items: seq<(string, Source)>): (ops: seq<BusOp>)
  {
    if items == [] then []
    else
      (match items[0].1
       case DeferredWrite(a, c) => [Write(a, c)]
       case _ => [])
      + DeferredCommands(items[1..])
  }

  /** The writes of `items` followed by `item` are those of `items`, then the one of `item`. */
  lemma {:induction false} DeferredCommandsAppend(items: seq<(string, Source)>, item: (string, Source))
    ensures DeferredCommands(items + [item]) == DeferredCommands(items) + DeferredCommands([item])
  {
    if items != [] {
      assert (items + [item])[1..] == items[1..] + [item];
      DeferredCommandsAppend(items[1..], item);
    }
  }

  /**
   * A scan that does not raise issues exactly one write per deferred-write
   * entry, with that entry's address and command, in insertion order.
   */
  lemma {:induction false} ScanWrites(d: Dict<Source>, n: nat)
    requires n <= |d.items|
    requires Scan(d, n).outcome.Success?
    ensures Scan(d, n).writes == DeferredCommands(d.items[..n])
  {
    if n > 0 {
      ScanWrites(d, n - 1);
      assert d.items[..n] == d.items[..n - 1] + [d.items[n - 1]];
      DeferredCommandsAppend(d.items[..n - 1], d.items[n - 1]);
    }
  }

  /**
   * A scan that reaches an entry holding `None` raises, having issued exactly
   * the deferred writes of the entries before it, in insertion order.
   */
  lemma ScanWritesOnFailure(d: Dict<Source>, n: nat, j: nat)
    requires j < n <= |d.items| && Callable(d, j) && d.items[j].1.EagerResult?
    ensures Scan(d, n).outcome.Failure?
    ensures Scan(d, n).writes == DeferredCommands(d.items[..j])
  {
    ScanWrites(d, j);
    ScanStopsAtFailure(d, j + 1, n);
  }

  /** Every analog entry reads a claimed ADC-capable pin. */
  ghost predicate AnalogPinsClaimed(d: Dict<Source>, pins: set<int>)
  {
    forall i :: 0 <= i < |d.items| && d.items[i].1.Analog? ==>
      d.items[i].1.pin in pins && d.items[i].1.pin in AdcPins
  }

  /** No two analog entries read the same pin. */
  ghost predicate AnalogPinsExclusive(d: Dict<Source>)
  {
    forall i, j :: 0 <= i < j < |d.items| && d.items[i].1.Analog? && d.items[j].1.Analog? ==>
      d.items[i].1.pin != d.items[j].1.pin
  }

  /** No entry is an analog source. */
  ghost predicate NoAnalog(d: Dict<Source>)
  {
    forall i :: 0 <= i < |d.items| ==> !d.items[i].1.Analog?
  }

  /** No entry holds the `None` left by an eager write. */
  ghost predicate NoEager(d: Dict<Source>)
  {
    forall i :: 0 <= i < |d.items| ==> !d.items[i].1.EagerResult?
  }

  /** Binding a name to an analog source on an unclaimed pin keeps the pin invariants once the pin is claimed. */
  lemma ClaimKeepsPinInvariants(d: Dict<Source>, pins: set<int>, name: string, pin: int)
    requires WellFormed(d) && AnalogPinsClaimed(d, pins) && AnalogPinsExclusive(d)
    requires pin !in pins && pin in AdcPins
    ensures AnalogPinsClaimed(Put(d, name, Analog(pin)), pins + {pin})
    ensures AnalogPinsExclusive(Put(d, name, Analog(pin)))
  {
  }

  /** Binding a name to an I2C source keeps the pin invariants. */
  lemma I2cEntryKeepsPinInvariants(d: Dict<Source>, pins: set<int>, name: string, src: Source)
    requires WellFormed(d) && AnalogPinsClaimed(d, pins) && AnalogPinsExclusive(d)
    requires !src.Analog?
    ensures AnalogPinsClaimed(Put(d, name, src), pins)
    ensures AnalogPinsExclusive(Put(d, name, src))
    ensures NoAnalog(d) ==> NoAnalog(Put(d, name, src))
    ensures NoEager(d) && !src.EagerResult? ==> NoEager(Put(d, name, src))
  {
  }

  class Sensor {
    const sensorName: string
    const topic: string
    const reportingIntervalSec: int

    /** `self.pins`: every pin a registration has claimed. */
    var pins: set<int>
    /** `self.measurement_functions` */
    var measurementFunctions: Dict<Source>
    /** `self.init_functions` */
    var initFunctions: Dict<Source>
    /** `self.i2c_bus` */
    var bus: Option<BusHandle>
    /** Every transaction issued on the bus, oldest first; stands in for the hardware. */
    ghost var busLog: seq<BusOp>

    /**
     * The registry invariant: both dicts are well formed, every analog source
     * reads its own claimed ADC pin, only the measurement dict holds analog
     * sources, and nothing has touched the bus while there is no handle.
     */
    ghost predicate Valid()
      reads this
    {
      && WellFormed(measurementFunctions)
      && WellFormed(initFunctions)
      && AnalogPinsClaimed(measurementFunctions, pins)
      && AnalogPinsExclusive(measurementFunctions)
      && NoAnalog(initFunctions)
      && (bus.None? ==> busLog == [] && NoEager(measurementFunctions) && NoEager(initFunctions))
    }

    /** `Sensor(sensor_name, topic, indicator_pin, reporting_interval_sec, I2CSensor)` */
    constructor (sensorName: string, topic: string := "sensor_data", reportingIntervalSec: int := 5,
                 i2cSensor: bool := false)
      ensures Valid()
      ensures this.sensorName == sensorName && this.topic == topic
      ensures this.reportingIntervalSec == reportingIntervalSec
      ensures pins == {} && measurementFunctions == Empty() && initFunctions == Empty()
      ensures bus == (if i2cSensor then Some(ConstructorBus) else None)
      ensures busLog == []
    {
      this.sensorName := sensorName;
      this.topic := topic;
      this.reportingIntervalSec := reportingIntervalSec;
      pins := {};
      measurementFunctions := Empty();
      initFunctions := Empty();
      bus := if i2cSensor then Some(ConstructorBus) else None;
      busLog := [];
    }

    /**
     * `register_analog_sensor_function(name, pin)`. The pin is claimed before
     * it is checked against the ADC pins, so a rejected non-ADC pin stays
     * claimed.
     */
    method RegisterAnalog(name: string, pin: int) returns (res: Outcome<Error>)
      requires Valid()
      modifies this
      ensures Valid()
      ensures pin in old(pins) ==>
        res == Fail(PinInUse(pin)) && pins == old(pins) && measurementFunctions == old(measurementFunctions)
      ensures pin !in old(pins) && pin !in AdcPins ==>
        res == Fail(InvalidAdcPin(pin)) && pins == old(pins) + {pin} &&
        measurementFunctions == old(measurementFunctions)
      ensures pin !in old(pins) && pin in AdcPins ==>
        res == Pass && pins == old(pins) + {pin} &&
        measurementFunctions == Put(old(measurementFunctions), name, Analog(pin))
      ensures initFunctions == old(initFunctions) && bus == old(bus) && busLog == old(busLog)
    {
      if pin in pins {
        return Fail(PinInUse(pin));
      }
      pins := pins + {pin};
      if pin !in AdcPins {
        return Fail(InvalidAdcPin(pin));
      }
      ClaimKeepsPinInvariants(measurementFunctions, old(pins), name, pin);
      measurementFunctions := Put(measurementFunctions, name, Analog(pin));
      res := Pass;
    }

    /**
     * `register_i2c_sensor_function(name, address, cmd, cmd_type, num_bytes, hash_func)`.
     * Without `hash_func` the entry is a deferred write of `cmd`; with it, the
     * hashed command is written at once and the entry holds that call's result.
     */
    method RegisterI2c(name: string, address: int, cmd: seq<Byte>, cmdType: string,
                       numBytes: nat := 3, hashFunc: Option<seq<Byte> -> seq<Byte>> := None)
      returns (res: Outcome<Error>)
      requires Valid()
      modifies this
      ensures Valid()
      ensures pins == old(pins)
      ensures res == if cmdType == "init" || cmdType == "measure" then Pass else Fail(InvalidCmdType(cmdType))
      ensures res.Fail? ==>
        && measurementFunctions == old(measurementFunctions) && initFunctions == old(initFunctions)
        && bus == old(bus) && busLog == old(busLog)
      ensures var entry := if hashFunc.None? then DeferredWrite(address, cmd) else EagerResult;
        && (cmdType == "init" ==>
              initFunctions == Put(old(initFunctions), name, entry) &&
              measurementFunctions == old(measurementFunctions))
        && (cmdType == "measure" ==>
              measurementFunctions == Put(old(measurementFunctions), name, entry) &&
              initFunctions == old(initFunctions))
      ensures res.Pass? && hashFunc.None? ==> bus == old(bus) && busLog == old(busLog)
      ensures res.Pass? && hashFunc.Some? ==>
        bus == Some(LazyInit(old(bus))) && busLog == old(busLog) + [Write(address, hashFunc.value(cmd))]
    {
      if cmdType != "init" && cmdType != "measure" {
        return Fail(InvalidCmdType(cmdType));
      }
      var entry: Source;
      if hashFunc.None? {
        entry := DeferredWrite(address, cmd);
      } else {
        WriteI2c(address, hashFunc.value(cmd));
        entry := EagerResult;
      }
      if cmdType == "init" {
        I2cEntryKeepsPinInvariants(initFunctions, pins, name, entry);
        initFunctions := Put(initFunctions, name, entry);
      } else {
        I2cEntryKeepsPinInvariants(measurementFunctions, pins, name, entry);
        measurementFunctions := Put(measurementFunctions, name, entry);
      }
      res := Pass;
    }

    /**
     * `read_i2c(address, num_bytes)`: opens the bus if there is no handle yet,
     * then returns what the device at `address` answers (`readfrom`).
     */
    method ReadI2c(address: int, numBytes: nat, readfrom: (int, nat) -> seq<Byte>) returns (data: seq<Byte>)
      requires Valid()
      modifies this
      ensures Valid()
      ensures data == readfrom(address, numBytes)
      ensures bus == Some(LazyInit(old(bus)))
      ensures busLog == old(busLog) + [Read(address, numBytes)]
      ensures pins == old(pins)
      ensures measurementFunctions == old(measurementFunctions) && initFunctions == old(initFunctions)
    {
      if bus.None? {
        bus := Some(LazyBus);
      }
      busLog := busLog + [Read(address, numBytes)];
      data := readfrom(address, numBytes);
    }

    /**
     * `write_i2c(address, data)`: opens the bus if there is no handle yet,
     * then writes `data` to the device at `address`. It returns nothing.
     */
    method WriteI2c(address: int, data: seq<Byte>)
      requires Valid()
      modifies this
      ensures Valid()
      ensures bus == Some(LazyInit(old(bus)))
      ensures busLog == old(busLog) + [Write(address, data)]
      ensures pins == old(pins)
      ensures measurementFunctions == old(measurementFunctions) && initFunctions == old(initFunctions)
    {
      if bus.None? {
        bus := Some(LazyBus);
      }
      busLog := busLog + [Write(address, data)];
    }

    /**
     * Calling the value stored under `name` (`value()` in `measurements`):
     * the ADC reader reads its pin, the deferred write writes its command and
     * yields `None`, and the `None` left by an eager registration is not
     * callable.
     */
    method Invoke(name: string, src: Source) returns (r: Result<Reading, Error>)
      requires Valid()
      modifies this
      ensures Valid()
      ensures pins == old(pins)
      ensures measurementFunctions == old(measurementFunctions) && initFunctions == old(initFunctions)
      ensures match src
        case Analog(p) => r == Success(AdcRead(p)) && bus == old(bus) && busLog == old(busLog)
        case DeferredWrite(a, c) =>
          r == Success(Null) && bus == Some(LazyInit(old(bus))) && busLog == old(busLog) + [Write(a, c)]
        case EagerResult => r == Failure(NotCallable(name)) && bus == old(bus) && busLog == old(busLog)
    {
      match src {
        case Analog(p) =>
          r := Success(AdcRead(p));
        case DeferredWrite(a, c) =>
          WriteI2c(a, c);
          r := Success(Null);
        case EagerResult =>
          r := Failure(NotCallable(name));
      }
    }

    /**
     * The comprehension `{key: value() for key, value in
     * self.measurement_functions.items()}`: invokes every measurement source
     * in insertion order. Invoking a deferred write writes to the bus;
     * invoking an entry that holds `None` raises, after the writes of the
     * entries before it.
     */
    method CollectReadings() returns (r: Result<Dict<Reading>, Error>)
      requires Valid()
      modifies this
      ensures Valid()
      ensures pins == old(pins)
      ensures measurementFunctions == old(measurementFunctions) && initFunctions == old(initFunctions)
      ensures var s := Scan(measurementFunctions, |measurementFunctions.items|);
        && r == s.outcome
        && busLog == old(busLog) + s.writes
        && bus == (if s.writes == [] then old(bus) else Some(LazyInit(old(bus))))
    {
      var d := measurementFunctions;
      var data: Dict<Reading> := Empty();
      ghost var writes: seq<BusOp> := [];
      var i := 0;
      while i < |d.items|
        invariant 0 <= i <= |d.items|
        invariant Valid()
        invariant measurementFunctions == d && initFunctions == old(initFunctions) && pins == old(pins)
        invariant Scan(d, i) == ScanState(writes, Success(data))
        invariant busLog == old(busLog) + writes
        invariant bus == (if writes == [] then old(bus) else Some(LazyInit(old(bus))))
      {
        NextKeyIsNew(d, i);
        var (k, src) := d.items[i];
        var v := Invoke(k, src);
        if v.Failure? {
          ScanStopsAtFailure(d, i + 1, |d.items|);
          return Failure(v.error);
        }
        data := Put(data, k, v.value);
        if src.DeferredWrite? {
          writes := writes + [Write(src.address, src.cmd)];
        }
        i := i + 1;
      }
      r := Success(data);
    }

    /**
     * `measurements()`: the snapshot `{"sensor": sensor_name, "data": …}`,
     * whose data holds one reading per measurement source, under the same
     * names and in the same order.
     */
    method Measurements() returns (r: Result<Snapshot, Error>)
      requires Valid()
      modifies this
      ensures Valid()
      ensures pins == old(pins)
      ensures measurementFunctions == old(measurementFunctions) && initFunctions == old(initFunctions)
      ensures var s := Scan(measurementFunctions, |measurementFunctions.items|);
        && busLog == old(busLog) + s.writes
        && bus == (if s.writes == [] then old(bus) else Some(LazyInit(old(bus))))
        && r == match s.outcome
                case Success(data) => Success(Snapshot(sensorName, data))
                case Failure(e) => Failure(e)
      ensures r.Success? ==>
        r.value.sensor == sensorName && Keys(r.value.data) == Keys(measurementFunctions)
    {
      var data := CollectReadings();
      if data.Failure? {
        return Failure(data.error);
      }
      SnapshotKeys(measurementFunctions, |measurementFunctions.items|);
      r := Success(Snapshot(sensorName, data.value));
    }
  }

  /**
   * A non-ADC pin is rejected but stays claimed, so registering it again,
   * under any name, fails as already in use.
   */
  method RejectedPinStaysClaimed(s: Sensor, first: string, second: string, pin: int)
    returns (r1: Outcome<Error>, r2: Outcome<Error>)
    requires s.Valid() && pin !in s.pins && pin !in AdcPins
    modifies s
    ensures s.Valid()
    ensures r1 == Fail(InvalidAdcPin(pin)) && r2 == Fail(PinInUse(pin))
    ensures s.pins == old(s.pins) + {pin} && s.measurementFunctions == old(s.measurementFunctions)
  {
    r1 := s.RegisterAnalog(first, pin);
    r2 := s.RegisterAnalog(second, pin);
  }

  /**
   * A hashed measure command is written once at registration; the entry it
   * leaves behind is `None`, so the next snapshot raises.
   */
  method HashedMeasureBreaksSnapshot(s: Sensor, name: string, address: int, cmd: seq<Byte>,
                                     hash: seq<Byte> -> seq<Byte>)
    returns (r: Result<Snapshot, Error>)
    requires s.Valid()
    modifies s
    ensures s.Valid()
    ensures |s.busLog| >= |old(s.busLog)| + 1 && s.busLog[|old(s.busLog)|] == Write(address, hash(cmd))
    ensures r.Failure? && r.error.NotCallable?
  {
    var reg := s.RegisterI2c(name, address, cmd, "measure", hashFunc := Some(hash));
    ghost var m := s.measurementFunctions;
    assert !Callable(m, |m.items|) by {
      PutGet(old(s.measurementFunctions), name, EagerResult, name);
      var f := Find(m.items, name);
      assert m.items[f.value].1 == EagerResult;
    }
    r := s.Measurements();
  }

  /**
   * Registering a measure command twice under one name keeps only the second
   * command: last write wins.
   */
  method ReRegistrationOverwrites(s: Sensor, name: string, address: int, first: seq<Byte>, second: seq<Byte>)
    requires s.Valid()
    modifies s
    ensures s.Valid()
    ensures s.measurementFunctions == Put(old(s.measurementFunctions), name, DeferredWrite(address, second))
    ensures Get(s.measurementFunctions, name) == Some(DeferredWrite(address, second))
    ensures s.pins == old(s.pins) && s.busLog == old(s.busLog)
  {
    var r1 := s.RegisterI2c(name, address, first, "measure");
    var r2 := s.RegisterI2c(name, address, second, "measure");
    PutTwice(old(s.measurementFunctions), name, DeferredWrite(address, first), DeferredWrite(address, second));
    PutGet(old(s.measurementFunctions), name, DeferredWrite(address, second), name);
  }

  /** Two analog sources on two distinct ADC pins both register. */
  method TwoAnalogSources(s: Sensor, first: string, second: string, p1: int, p2: int)
    returns (r1: Outcome<Error>, r2: Outcome<Error>)
    requires s.Valid() && p1 != p2 && p1 in AdcPins && p2 in AdcPins && p1 !in s.pins && p2 !in s.pins
    modifies s
    ensures s.Valid()
    ensures r1 == Pass && r2 == Pass
    ensures s.pins == old(s.pins) + {p1, p2}
    ensures first != second ==>
      Get(s.measurementFunctions, first) == Some(Analog(p1)) &&
      Get(s.measurementFunctions, second) == Some(Analog(p2))
  {
    r1 := s.RegisterAnalog(first, p1);
    ghost var mid := s.measurementFunctions;
    r2 := s.RegisterAnalog(second, p2);
    PutGet(old(s.measurementFunctions), first, Analog(p1), first);
    PutGet(mid, second, Analog(p2), first);
    PutGet(mid, second, Analog(p2), second);
  }
}
