/**
 * `FioTScanManager`: a scan session over its own transport that filters
 * advertisements by device name, keeps the list of devices found so far
 * (unique by address up to case) and, in low-battery mode, alternates 30 s
 * scan windows with 30 s pauses.
 */
module ScanManager {
  import opened Wrappers
  import opened JavaTypes
  import opened Gatt
  import Text
  import Seqs
  import LE = BluetoothLE

  /** Length of a scan window and of the pause after it in low-battery mode, in milliseconds. */
  const DURATION_IN_LOW_BATTERY: nat := 30000
  const SLEEP_TIME_IN_LOW_BATTERY: nat := 30000

  /** A remote device as the platform reports it; its name may be unknown (`null`). */
  datatype Device = Device(address: string, name: Option<string>)

  datatype ScanMode = LowBattery | Continuous

  /**
   * The arguments of `start` that its duty-cycle callbacks capture. The mode
   * is not among them: a callback is only ever armed in low-battery mode.
   */
  datatype StartArgs = StartArgs(filter: string, ignoreExist: bool, hasListener: bool)

  /**
   * The pending duty-cycle callback: none, the end of a scan window, or the end
   * of a pause, each holding the arguments of the `start` call that armed it.
   */
  datatype DutyTimer = Idle | ScanWindow(args: StartArgs) | SleepWindow(args: StartArgs)

  datatype ScanState = ScanState(
    filter: string,
    ignoreExist: bool,
    mode: ScanMode,
    hasListener: bool,           // a ScanManagerListener was passed to start
    list: seq<Device>,
    le: LE.LeState,
    leListening: bool,           // the transport's scan listener is this manager
    timer: DutyTimer)

  /** The report made to the application: the newly listed device, or `null` for one already listed. */
  datatype Found = Found(device: Option<Device>, rssi: int)

  datatype ScanStep = ScanStep(s: ScanState, acts: seq<Action>, found: Option<Found>)

  function New(): (s: ScanState)
    ensures s.list == [] && s.filter == "" && s.mode.Continuous? && s.timer.Idle? && !s.leListening
  {
    ScanState("", false, Continuous, false, [], LE.Init(), false, Idle)
  }

  /** The devices of the list have pairwise different addresses, up to case. */
  predicate Unique(list: seq<Device>)
  {
    forall i, j :: 0 <= i < j < |list| ==> !Text.EqualsIgnoreCase(list[i].address, list[j].address)
  }

  /** `exist(device)`: some listed device has the same address up to case. */
  function Exist(list: seq<Device>, address: string): (r: bool)
    ensures r <==> exists i :: 0 <= i < |list| && Text.EqualsIgnoreCase(list[i].address, address)
  {
    if |list| == 0 then false
    else Text.EqualsIgnoreCase(list[0].address, address) || Exist(list[1..], address)
  }

  /**
   * `start`: records the parameters, becomes the transport's scan listener and
   * starts scanning; a failure to start propagates. In low-battery mode the end
   * of the first scan window is then scheduled.
   */
  function Start(s: ScanState, filter: string, ignoreExist: bool, mode: ScanMode, hasListener: bool,
                 adapterOn: bool): (r: ScanStep)
    ensures r.s.filter == filter && r.s.ignoreExist == ignoreExist && r.s.mode == mode
    ensures r.s.hasListener == hasListener && r.s.leListening && r.s.list == s.list
    ensures r.found.None?
    ensures (exists e :: Threw(e) in r.acts) ==> r.s.timer == s.timer
    ensures !(exists e :: Threw(e) in r.acts) ==>
              r.s.le.scanning &&
              r.s.timer == (if mode.LowBattery? then ScanWindow(StartArgs(filter, ignoreExist, hasListener)) else s.timer)
  {
    var s1 := s.(filter := filter, ignoreExist := ignoreExist, mode := mode, hasListener := hasListener,
                 leListening := true);
    var st := LE.StartScanning(s.le, adapterOn);
    if st.acts == [Threw(NullPointer)] || st.acts == [Threw(BluetoothOff)] then
      ScanStep(s1.(le := st.le), st.acts, None)
    else
      var armed := if mode.LowBattery? then ScanWindow(StartArgs(filter, ignoreExist, hasListener)) else s.timer;
      ScanStep(s1.(le := st.le, timer := armed), st.acts, None)
  }

  /** The end of a scan window: scanning stops and the pause begins, carrying the same arguments. */
  function ScanWindowElapsed(s: ScanState): (r: ScanStep)
    ensures !s.timer.ScanWindow? ==> r == ScanStep(s, [], None)
    ensures s.timer.ScanWindow? ==>
              r.s == s.(le := r.s.le, timer := SleepWindow(s.timer.args)) && (!r.s.le.scanning || !s.le.hasAdapter)
    ensures r.s.list == s.list
  {
    if !s.timer.ScanWindow? then ScanStep(s, [], None)
    else
      var st := LE.StopScanning(s.le);
      ScanStep(s.(le := st.le, timer := SleepWindow(s.timer.args)), st.acts, None)
  }

  /**
   * The end of a pause: `start` again, in low-battery mode, with the arguments
   * of the call that armed the cycle, whatever `start` has recorded since;
   * Bluetooth being off is caught and ends the cycle.
   */
  function SleepWindowElapsed(s: ScanState, adapterOn: bool): (r: ScanStep)
    ensures !s.timer.SleepWindow? ==> r == ScanStep(s, [], None)
    ensures s.timer.SleepWindow? ==>
              var a := s.timer.args;
              r.s.filter == a.filter && r.s.ignoreExist == a.ignoreExist && r.s.hasListener == a.hasListener &&
              r.s.mode.LowBattery? && r.s.leListening
    ensures s.timer.SleepWindow? && s.le.hasAdapter && adapterOn ==>
              r.s.timer == ScanWindow(s.timer.args) && r.s.le.scanning
    ensures s.timer.SleepWindow? && s.le.hasAdapter && !adapterOn && !s.le.scanning ==>
              r.s.timer.Idle? && r.acts == []
    ensures r.s.list == s.list
  {
    if !s.timer.SleepWindow? then ScanStep(s, [], None)
    else
      var a := s.timer.args;
      var r := Start(s.(timer := Idle), a.filter, a.ignoreExist, LowBattery, a.hasListener, adapterOn);
      if r.acts == [Threw(BluetoothOff)] then ScanStep(r.s, [], None) else r
  }

  /** `stop`: cancels the duty cycle (in low-battery mode only), detaches from the transport, stops scanning, empties the list. */
  function Stop(s: ScanState): (r: ScanStep)
    ensures r.s.list == [] && !r.s.leListening && r.found.None?
    ensures s.mode.LowBattery? ==> r.s.timer.Idle?
    ensures s.mode.Continuous? ==> r.s.timer == s.timer
    ensures !r.s.le.scanning || !s.le.hasAdapter
  {
    var st := LE.StopScanning(s.le);
    ScanStep(s.(timer := if s.mode.LowBattery? then Idle else s.timer, leListening := false, le := st.le, list := []),
             st.acts, None)
  }

  /** `end`: ends the transport and empties the list; the duty cycle is not cancelled. */
  function End(s: ScanState): (r: ScanState)
    ensures r.list == [] && !r.le.hasAdapter && !r.le.scanning
    ensures r.timer == s.timer && r.leListening == s.leListening
  {
    s.(le := LE.End(s.le), list := [])
  }

  /** `removeDevice(mac)`: removes the last listed device whose address matches up to case, if any. */
  function RemoveDevice(list: seq<Device>, mac: string): (r: seq<Device>)
    ensures !Exist(list, mac) ==> r == list
    ensures Exist(list, mac) ==> |r| == |list| - 1
    ensures Exist(list, mac) ==>
              exists i :: 0 <= i < |list| && Text.EqualsIgnoreCase(list[i].address, mac) &&
                          r == list[..i] + list[i + 1..] &&
                          forall j :: i < j < |list| ==> !Text.EqualsIgnoreCase(list[j].address, mac)
  {
    match LastMatch(list, mac, |list|)
    case None => list
    case Some(i) => list[..i] + list[i + 1..]
  }

  /** The last index below `n` whose device address matches `mac`. */
  function LastMatch(list: seq<Device>, mac: string, n: nat): (r: Option<nat>)
    requires n <= |list|
    ensures r.None? ==> forall j :: 0 <= j < n ==> !Text.EqualsIgnoreCase(list[j].address, mac)
    ensures r.Some? ==> r.value < n && Text.EqualsIgnoreCase(list[r.value].address, mac) &&
                        forall j :: r.value < j < n ==> !Text.EqualsIgnoreCase(list[j].address, mac)
  {
    if n == 0 then None
    else if Text.EqualsIgnoreCase(list[n - 1].address, mac) then Some(n - 1)
    else LastMatch(list, mac, n - 1)
  }

  /**
   * The scan listener's `onFoundDevice`: unnamed devices and names not
   * containing the filter are ignored. A new device is listed and reported; a
   * listed one is ignored under `ignoreExist` and otherwise reported as `null`.
   */
  function OnFoundDevice(s: ScanState, d: Device, rssi: int): (r: ScanStep)
    ensures r.acts == [] && r.s == s.(list := r.s.list)
    ensures d.name.None? || !Text.Contains(d.name.value, s.filter) ==> r.s == s && r.found.None?
    ensures d.name.Some? && Text.Contains(d.name.value, s.filter) && !Exist(s.list, d.address) ==>
              r.s.list == s.list + [d] && (r.found == if s.hasListener then Some(Found(Some(d), rssi)) else None)
    ensures d.name.Some? && Text.Contains(d.name.value, s.filter) && Exist(s.list, d.address) ==>
              r.s == s && (r.found == if s.hasListener && !s.ignoreExist then Some(Found(None, rssi)) else None)
  {
    if d.name.None? || !Text.Contains(d.name.value, s.filter) then ScanStep(s, [], None)
    else if !Exist(s.list, d.address) then
      ScanStep(s.(list := s.list + [d]), [], if s.hasListener then Some(Found(Some(d), rssi)) else None)
    else if s.ignoreExist then ScanStep(s, [], None)
    else ScanStep(s, [], if s.hasListener then Some(Found(None, rssi)) else None)
  }

  /** An advertisement from the transport, delivered only while this manager is its scan listener. */
  function OnAdvertisement(s: ScanState, d: Device, rssi: int): (r: ScanStep)
    ensures !s.leListening ==> r == ScanStep(s, [], None)
    ensures s.leListening ==> r == OnFoundDevice(s, d, rssi)
  {
    if s.leListening then OnFoundDevice(s, d, rssi) else ScanStep(s, [], None)
  }

  /** Every step keeps the listed addresses unique. */
  lemma OnFoundDeviceKeepsUnique(s: ScanState, d: Device, rssi: int)
    requires Unique(s.list)
    ensures Unique(OnFoundDevice(s, d, rssi).s.list)
  {
    var l := OnFoundDevice(s, d, rssi).s.list;
    if l != s.list {
      forall i, j | 0 <= i < j < |l|
        ensures !Text.EqualsIgnoreCase(l[i].address, l[j].address)
      {
        if j == |s.list| {
          assert l[j] == d;
          Text.EqualsIgnoreCaseIsEquivalence(l[i].address, d.address, d.address);
        }
      }
    }
  }

  lemma RemoveDeviceKeepsUnique(list: seq<Device>, mac: string)
    requires Unique(list)
    ensures Unique(RemoveDevice(list, mac))
  {
    var m := LastMatch(list, mac, |list|);
    if m.Some? {
      var i := m.value;
      var r := list[..i] + list[i + 1..];
      assert RemoveDevice(list, mac) == r;
      forall a, b | 0 <= a < b < |r|
        ensures !Text.EqualsIgnoreCase(r[a].address, r[b].address)
      {
        SkipIndex(list, i, a);
        SkipIndex(list, i, b);
        var a' := if a < i then a else a + 1;
        var b' := if b < i then b else b + 1;
        assert a' < b' && !Text.EqualsIgnoreCase(list[a'].address, list[b'].address);
      }
    }
  }

  /** Position `k` of the list without entry `i` holds the list's entry `k` or `k + 1`. */
  lemma SkipIndex(list: seq<Device>, i: nat, k: nat)
    requires i < |list| && k < |list| - 1
    ensures (list[..i] + list[i + 1..])[k] == list[if k < i then k else k + 1]
  {
  }

  /** On a list with unique addresses, the removed address is gone afterwards. */
  lemma RemoveDeviceRemoves(list: seq<Device>, mac: string)
    requires Unique(list)
    ensures !Exist(RemoveDevice(list, mac), mac)
  {
    var r := RemoveDevice(list, mac);
    var m := LastMatch(list, mac, |list|);
    if m.Some? {
      var i := m.value;
      assert r == list[..i] + list[i + 1..];
      forall k | 0 <= k < |r|
        ensures !Text.EqualsIgnoreCase(r[k].address, mac)
      {
        SkipIndex(list, i, k);
        OnlyMatch(list, mac, i, if k < i then k else k + 1);
      }
    }
  }

  /** Every device whose address does not match stays listed. */
  lemma RemoveDeviceKeepsOthers(list: seq<Device>, mac: string, d: Device)
    requires d in list && !Text.EqualsIgnoreCase(d.address, mac)
    ensures d in RemoveDevice(list, mac)
  {
    var m := LastMatch(list, mac, |list|);
    if m.Some? {
      var i := m.value;
      var r := list[..i] + list[i + 1..];
      assert RemoveDevice(list, mac) == r;
      var k :| 0 <= k < |list| && list[k] == d;
      if k < i {
        assert list[..i][k] == d;
      } else {
        assert list[i + 1..][k - i - 1] == d;
      }
    }
  }

  /** With unique addresses, a matching position is the only one. */
  lemma OnlyMatch(list: seq<Device>, mac: string, i: nat, k: nat)
    requires Unique(list) && i < |list| && k < |list| && k != i
    requires Text.EqualsIgnoreCase(list[i].address, mac)
    ensures !Text.EqualsIgnoreCase(list[k].address, mac)
  {
    if k < i {
      assert !Text.EqualsIgnoreCase(list[k].address, list[i].address);
    } else {
      assert !Text.EqualsIgnoreCase(list[i].address, list[k].address);
    }
  }

  /**
   * The same device advertising again (its address may differ in case) is not
   * listed twice, and under `ignoreExist` is not reported again.
   */
  lemma RepeatedAdvertisementDeduplicated(s: ScanState, d: Device, d2: Device, rssi: int, rssi2: int)
    requires d.name.Some? && Text.Contains(d.name.value, s.filter)
    requires d2.name.Some? && Text.Contains(d2.name.value, s.filter)
    requires Text.EqualsIgnoreCase(d.address, d2.address)
    ensures var s1 := OnFoundDevice(s, d, rssi).s;
            var r2 := OnFoundDevice(s1, d2, rssi2);
            r2.s == s1 && (s.ignoreExist ==> r2.found.None?)
  {
    var s1 := OnFoundDevice(s, d, rssi).s;
    if !Exist(s.list, d.address) {
      assert s1.list[|s.list|] == d;
      Text.EqualsIgnoreCaseIsEquivalence(d.address, d2.address, d2.address);
    } else {
      var i :| 0 <= i < |s.list| && Text.EqualsIgnoreCase(s.list[i].address, d.address);
      Text.EqualsIgnoreCaseIsEquivalence(s.list[i].address, d.address, d2.address);
    }
  }

  /** The empty filter, `start`'s usual argument, accepts every named device. */
  lemma EmptyFilterAcceptsNamed(name: string)
    ensures Text.Contains(name, "")
  {
    assert Seqs.OccursAt(name, "", 0);
  }

  /** `stop` after a low-battery `start` leaves no duty-cycle callback, no listener and no scan. */
  lemma StopEndsLowBatteryCycle(s: ScanState, filter: string, adapterOn: bool)
    requires s.le.hasAdapter
    ensures var r := Stop(Start(s, filter, true, LowBattery, true, adapterOn).s).s;
            r.timer.Idle? && !r.leListening && !r.le.scanning && r.list == []
  {
  }

  /**
   * A `start` in continuous mode during the pause of a low-battery cycle does
   * not stop the cycle: at the end of the pause the first call's filter,
   * `ignoreExist` and listener come back, in low-battery mode.
   */
  lemma PauseRestartsArmingCall(s: ScanState, f1: string, i1: bool, h1: bool, f2: string, i2: bool, h2: bool)
    requires s.le.hasAdapter && !s.le.scanning
    ensures var s1 := Start(s, f1, i1, LowBattery, h1, true).s;
            var s2 := ScanWindowElapsed(s1).s;
            var s3 := Start(s2, f2, i2, Continuous, h2, true).s;
            var s4 := SleepWindowElapsed(s3, true).s;
            s3.filter == f2 && s3.mode.Continuous? && s3.timer == SleepWindow(StartArgs(f1, i1, h1)) &&
            s4.filter == f1 && s4.ignoreExist == i1 && s4.hasListener == h1 && s4.mode.LowBattery? &&
            s4.timer == ScanWindow(StartArgs(f1, i1, h1)) && s4.le.scanning
  {
  }
}
