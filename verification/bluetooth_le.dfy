/**
 * `FioTBluetoothLE`, the wrapper around the platform GATT client: scanning
 * flag, connection flag, write gate, the characteristics found by service
 * discovery, and the queue of notification-enable descriptor writes. Every
 * platform callback is an event; each handler returns the new state, the
 * actions it performed and the callback, if any, it made to its listener
 * (the session manager).
 */
module BluetoothLE {
  import opened Wrappers
  import opened JavaTypes
  import opened Gatt
  import opened Characteristic
  import Text
  import ByteUtils
  import Seqs

  datatype LeState = LeState(
    hasAdapter: bool,                   // mBluetoothAdapter != null
    hasGatt: bool,                      // mBluetoothGatt != null
    isConnected: bool,                  // mIsConnected
    scanning: bool,                     // mScanning
    disableWrite: bool,
    workingServices: seq<string>,       // UUIDs of mWorkingBluetoothService
    discovered: seq<GattChar>,          // mListCharacteristic
    notifyQueue: seq<Characteristic>)   // mEnableNotifyQueue

  /** The calls `FioTBluetoothLE` makes on its `BluetoothLEListener`. */
  datatype Upcall =
    | ConnectResult(result: int, code: int)
    | ServicesReady                     // onGetSupportServiceComplete
    | LinkDown                          // onDisconnected
    | DidWrite(ch: GattChar, status: int)
    | NotificationsReady                // onStartListenNotificationComplete

  datatype LeStep = LeStep(le: LeState, acts: seq<Action>, up: Option<Upcall>)

  /** The constructor: writes are enabled and nothing is connected or queued. */
  function Init(): (le: LeState)
    ensures le.hasAdapter && !le.hasGatt && !le.isConnected && !le.scanning && !le.disableWrite
    ensures le.workingServices == [] && le.discovered == [] && le.notifyQueue == []
  {
    LeState(true, false, false, false, false, [], [], [])
  }

  function DisableWrite(le: LeState): (r: LeState)
    ensures r.disableWrite && r == le.(disableWrite := true)
  {
    le.(disableWrite := true)
  }

  function EnableWrite(le: LeState): (r: LeState)
    ensures !r.disableWrite && r == le.(disableWrite := false)
  {
    le.(disableWrite := false)
  }

  /**
   * `startScanning`: a no-op while already scanning; with no adapter the state
   * query throws; with the adapter off it throws `BluetoothOffException`.
   */
  function StartScanning(le: LeState, adapterOn: bool): (r: LeStep)
    ensures r.up.None?
    ensures le.scanning ==> r == LeStep(le, [], None)
    ensures !le.scanning && le.hasAdapter && adapterOn ==> r.le.scanning && r.acts == [StartLeScan]
    ensures !le.scanning && !le.hasAdapter ==> r.acts == [Threw(NullPointer)] && r.le == le
    ensures !le.scanning && le.hasAdapter && !adapterOn ==> r.acts == [Threw(BluetoothOff)] && r.le == le
    ensures r.le == le.(scanning := r.le.scanning)
  {
    if le.scanning then LeStep(le, [], None)
    else if !le.hasAdapter then LeStep(le, [Threw(NullPointer)], None)
    else if !adapterOn then LeStep(le, [Threw(BluetoothOff)], None)
    else LeStep(le.(scanning := true), [StartLeScan], None)
  }

  /** `stopScanning`: stops only a scan in progress, and only while the adapter is present. */
  function StopScanning(le: LeState): (r: LeStep)
    ensures r.up.None?
    ensures !r.le.scanning || (r.le.scanning && !le.hasAdapter)
    ensures r.acts != [] <==> le.scanning && le.hasAdapter
    ensures r.le == le.(scanning := r.le.scanning)
  {
    if !le.scanning || !le.hasAdapter then LeStep(le, [], None)
    else LeStep(le.(scanning := false), [StopLeScan], None)
  }

  /**
   * `connect(address)`: needs the adapter; skipped when a GATT client exists and
   * the platform reports the device as already connected (`linkUp`).
   */
  function Connect(le: LeState, address: string, linkUp: bool): (r: LeStep)
    ensures r.up.None?
    ensures !le.hasAdapter || (le.hasGatt && linkUp) ==> r == LeStep(le, [], None)
    ensures le.hasAdapter && !(le.hasGatt && linkUp) ==>
              r.le == le.(hasGatt := true) && r.acts == [ConnectGatt(address), RefreshCache]
  {
    if !le.hasAdapter then LeStep(le, [], None)
    else if le.hasGatt && linkUp then LeStep(le, [], None)
    else LeStep(le.(hasGatt := true), [ConnectGatt(address), RefreshCache], None)
  }

  /**
   * `closeConnection`: forgets the connection, the working services and the
   * discovered characteristics, and disconnects and closes the GATT client if any.
   */
  function CloseConnection(le: LeState): (r: LeStep)
    ensures !r.le.isConnected && !r.le.hasGatt
    ensures r.le.workingServices == [] && r.le.discovered == []
    ensures r.le.notifyQueue == le.notifyQueue && r.le.scanning == le.scanning
    ensures r.le.disableWrite == le.disableWrite && r.le.hasAdapter == le.hasAdapter
    ensures r.acts == (if le.hasGatt then [DisconnectGatt, CloseGatt] else [])
    ensures r.up.None?
  {
    var le1 := le.(isConnected := false, workingServices := [], discovered := []);
    if le.hasGatt then LeStep(le1.(hasGatt := false), [DisconnectGatt, CloseGatt], None)
    else LeStep(le1, [], None)
  }

  /** `end`: drops the adapter and the GATT client and clears both flags; timers are cancelled. */
  function End(le: LeState): (r: LeState)
    ensures !r.hasAdapter && !r.hasGatt && !r.scanning && !r.isConnected
    ensures r.discovered == le.discovered && r.notifyQueue == le.notifyQueue
    ensures r.workingServices == le.workingServices && r.disableWrite == le.disableWrite
  {
    le.(hasAdapter := false, hasGatt := false, scanning := false, isConnected := false)
  }

  function ServiceUuids(services: seq<Service>): (r: seq<string>)
    ensures |r| == |services|
    ensures forall i :: 0 <= i < |services| ==> r[i] == services[i].uuid
  {
    if |services| == 0 then [] else [services[0].uuid] + ServiceUuids(services[1..])
  }

  /** `addWorkingService`: a `null` list is ignored, otherwise it replaces the working set. */
  function AddWorkingService(le: LeState, services: Option<seq<Service>>): (r: LeState)
    ensures services.None? ==> r == le
    ensures services.Some? ==> r == le.(workingServices := ServiceUuids(services.value))
  {
    match services
    case None => le
    case Some(s) => le.(workingServices := ServiceUuids(s))
  }

  predicate IsWorking(working: seq<string>, uuid: string)
  {
    exists w :: 0 <= w < |working| && Text.EqualsIgnoreCase(uuid, working[w])
  }

  /** How many working service UUIDs from index `w` on match `uuid` up to case. */
  function MatchCount(uuid: string, working: seq<string>, w: nat): (r: nat)
    decreases |working| - w
    ensures r == 0 <==> forall v :: w <= v < |working| ==> !Text.EqualsIgnoreCase(uuid, working[v])
  {
    if w >= |working| then 0
    else (if Text.EqualsIgnoreCase(uuid, working[w]) then 1 else 0) + MatchCount(uuid, working, w + 1)
  }

  /**
   * The inner loop of `getSupportedServices`: `s.chars` once per working
   * service from `w` on that it matches, so a service listed twice among the
   * working services contributes its characteristics twice.
   */
  function CharsFor(s: GattService, working: seq<string>, w: nat): (r: seq<GattChar>)
    decreases |working| - w
    ensures forall c :: c in r <==> c in s.chars && exists v :: w <= v < |working| && Text.EqualsIgnoreCase(s.uuid, working[v])
    ensures r == Seqs.Repeat(s.chars, MatchCount(s.uuid, working, w))
  {
    if w >= |working| then []
    else (if Text.EqualsIgnoreCase(s.uuid, working[w]) then s.chars else []) + CharsFor(s, working, w + 1)
  }

  /** The outer loop of `getSupportedServices`, over the discovered services from `i` on. */
  function Collect(found: seq<GattService>, working: seq<string>, i: nat): (r: seq<GattChar>)
    decreases |found| - i
    ensures forall c :: c in r <==>
              exists k :: i <= k < |found| && c in found[k].chars && IsWorking(working, found[k].uuid)
  {
    if i >= |found| then []
    else CharsFor(found[i], working, 0) + Collect(found, working, i + 1)
  }

  /**
   * `getSupportedServices`: appends to the discovered list the characteristics
   * of every discovered service whose UUID matches a working service up to case.
   */
  function GetSupportedServices(le: LeState, found: seq<GattService>): (r: LeState)
    ensures !le.hasGatt ==> r == le
    ensures r == le.(discovered := r.discovered)
    ensures |le.discovered| <= |r.discovered| && r.discovered[..|le.discovered|] == le.discovered
    ensures le.hasGatt ==> forall c :: c in r.discovered <==>
              c in le.discovered ||
              exists k :: 0 <= k < |found| && c in found[k].chars && IsWorking(le.workingServices, found[k].uuid)
  {
    if le.hasGatt then le.(discovered := le.discovered + Collect(found, le.workingServices, 0)) else le
  }

  /** Index `k` holds the first characteristic of `list` whose UUID matches `uuid` up to case. */
  predicate FirstMatch(list: seq<GattChar>, uuid: string, k: int)
  {
    0 <= k < |list| && Text.EqualsIgnoreCase(list[k].uuid, uuid) &&
    forall l :: 0 <= l < k ==> !Text.EqualsIgnoreCase(list[l].uuid, uuid)
  }

  function FirstMatchFrom(list: seq<GattChar>, uuid: string, k: nat): (r: Option<nat>)
    requires forall l :: 0 <= l < k && l < |list| ==> !Text.EqualsIgnoreCase(list[l].uuid, uuid)
    decreases |list| - k
    ensures r.Some? ==> FirstMatch(list, uuid, r.value)
    ensures r.None? ==> forall l :: 0 <= l < |list| ==> !Text.EqualsIgnoreCase(list[l].uuid, uuid)
  {
    if k >= |list| then None
    else if Text.EqualsIgnoreCase(list[k].uuid, uuid) then Some(k)
    else FirstMatchFrom(list, uuid, k + 1)
  }

  /** `getCharacteristic(uuid)`: the first discovered characteristic matching `uuid` up to case, or `null`. */
  function GetCharacteristic(le: LeState, uuid: string): (r: Option<GattChar>)
    ensures r.Some? ==> exists k :: FirstMatch(le.discovered, uuid, k) && le.discovered[k] == r.value
    ensures r.None? <==> forall l :: 0 <= l < |le.discovered| ==> !Text.EqualsIgnoreCase(le.discovered[l].uuid, uuid)
  {
    match FirstMatchFrom(le.discovered, uuid, 0)
    case None => None
    case Some(k) => Some(le.discovered[k])
  }

  /** The first characteristic of `list` whose UUID matches `uuid` up to case: the search of `getCharacteristic(uuid)`. */
  function FirstByUuid(list: seq<GattChar>, uuid: string): (r: Option<GattChar>)
    ensures r.Some? ==> exists k :: FirstMatch(list, uuid, k) && list[k] == r.value
    ensures r.None? <==> forall l :: 0 <= l < |list| ==> !Text.EqualsIgnoreCase(list[l].uuid, uuid)
  {
    match FirstMatchFrom(list, uuid, 0)
    case None => None
    case Some(k) => Some(list[k])
  }

  /** Two first matches are the same index. */
  lemma FirstMatchUnique(list: seq<GattChar>, uuid: string, k: int, k': int)
    requires FirstMatch(list, uuid, k) && FirstMatch(list, uuid, k')
    ensures k == k'
  {
  }

  /** Searching a concatenation finds the first part's match if it has one, and the second part's otherwise. */
  lemma FirstByUuidAppend(a: seq<GattChar>, b: seq<GattChar>, uuid: string)
    ensures FirstByUuid(a + b, uuid) == if FirstByUuid(a, uuid).Some? then FirstByUuid(a, uuid) else FirstByUuid(b, uuid)
  {
    var ab := a + b;
    if FirstByUuid(a, uuid).Some? {
      var k :| FirstMatch(a, uuid, k) && a[k] == FirstByUuid(a, uuid).value;
      assert FirstMatch(ab, uuid, k) by {
        forall l | 0 <= l < k
          ensures !Text.EqualsIgnoreCase(ab[l].uuid, uuid)
        {
          assert ab[l] == a[l];
        }
      }
      var k' :| FirstMatch(ab, uuid, k') && ab[k'] == FirstByUuid(ab, uuid).value;
      FirstMatchUnique(ab, uuid, k, k');
    } else if FirstByUuid(b, uuid).Some? {
      var k :| FirstMatch(b, uuid, k) && b[k] == FirstByUuid(b, uuid).value;
      assert FirstMatch(ab, uuid, |a| + k) by {
        forall l | 0 <= l < |a| + k
          ensures !Text.EqualsIgnoreCase(ab[l].uuid, uuid)
        {
          if l < |a| {
            assert ab[l] == a[l];
          } else {
            assert ab[l] == b[l - |a|];
          }
        }
      }
      var k' :| FirstMatch(ab, uuid, k') && ab[k'] == FirstByUuid(ab, uuid).value;
      FirstMatchUnique(ab, uuid, |a| + k, k');
    } else {
      forall l | 0 <= l < |ab|
        ensures !Text.EqualsIgnoreCase(ab[l].uuid, uuid)
      {
        if l < |a| {
          assert ab[l] == a[l];
        } else {
          assert ab[l] == b[l - |a|];
        }
      }
    }
  }

  /** The inner loop's output has the service's first match exactly when the service matches some working UUID. */
  lemma {:induction false} CharsForFirstByUuid(s: GattService, working: seq<string>, w: nat, uuid: string)
    ensures FirstByUuid(CharsFor(s, working, w), uuid) ==
              if MatchCount(s.uuid, working, w) > 0 then FirstByUuid(s.chars, uuid) else None
    decreases |working| - w
  {
    if w < |working| {
      var head := if Text.EqualsIgnoreCase(s.uuid, working[w]) then s.chars else [];
      var tail := CharsFor(s, working, w + 1);
      assert CharsFor(s, working, w) == head + tail;
      FirstByUuidAppend(head, tail, uuid);
      CharsForFirstByUuid(s, working, w + 1, uuid);
    }
  }

  /** The characteristic at `(k, j)` of the discovered services belongs to a working service and matches `uuid`. */
  predicate WorkingMatchAt(found: seq<GattService>, working: seq<string>, uuid: string, k: int, j: int)
  {
    0 <= k < |found| && 0 <= j < |found[k].chars| && IsWorking(working, found[k].uuid) &&
    Text.EqualsIgnoreCase(found[k].chars[j].uuid, uuid)
  }

  /**
   * The reference answer for a lookup after discovery: the characteristic at
   * the first position, in the order services and then their characteristics
   * are listed, that belongs to a working service and matches `uuid`.
   */
  function FirstWorkingChar(found: seq<GattService>, working: seq<string>, uuid: string, i: nat): (r: Option<GattChar>)
    decreases |found| - i
    ensures r.None? <==> forall k, j :: i <= k ==> !WorkingMatchAt(found, working, uuid, k, j)
    ensures r.Some? ==> exists k, j :: i <= k && WorkingMatchAt(found, working, uuid, k, j) &&
                          r.value == found[k].chars[j] &&
                          forall k', j' :: i <= k' && Before(k', j', k, j) ==> !WorkingMatchAt(found, working, uuid, k', j')
  {
    if i >= |found| then None
    else if IsWorking(working, found[i].uuid) && FirstByUuid(found[i].chars, uuid).Some? then
      var k :| FirstMatch(found[i].chars, uuid, k) && found[i].chars[k] == FirstByUuid(found[i].chars, uuid).value;
      assert WorkingMatchAt(found, working, uuid, i, k);
      FirstByUuid(found[i].chars, uuid)
    else
      assert forall j :: !WorkingMatchAt(found, working, uuid, i, j);
      FirstWorkingChar(found, working, uuid, i + 1)
  }

  /** The collected list's first match is the reference answer. */
  lemma {:induction false} CollectFirstByUuid(found: seq<GattService>, working: seq<string>, uuid: string, i: nat)
    ensures FirstByUuid(Collect(found, working, i), uuid) == FirstWorkingChar(found, working, uuid, i)
    decreases |found| - i
  {
    if i < |found| {
      var s := found[i];
      CollectFirstByUuid(found, working, uuid, i + 1);
      FirstByUuidAppend(CharsFor(s, working, 0), Collect(found, working, i + 1), uuid);
      CharsForFirstByUuid(s, working, 0, uuid);
      assert MatchCount(s.uuid, working, 0) > 0 <==> IsWorking(working, s.uuid);
    }
  }

  /**
   * Looking a characteristic up after `getSupportedServices`: a characteristic
   * listed before discovery still wins; otherwise the answer is the first
   * characteristic, in service order and then characteristic order, of a
   * working service whose UUID matches, and `null` if there is none.
   */
  lemma LookupAfterDiscovery(le: LeState, found: seq<GattService>, uuid: string)
    requires le.hasGatt
    ensures GetCharacteristic(le, uuid).Some? ==>
              GetCharacteristic(GetSupportedServices(le, found), uuid) == GetCharacteristic(le, uuid)
    ensures GetCharacteristic(le, uuid).None? ==>
              GetCharacteristic(GetSupportedServices(le, found), uuid) ==
              FirstWorkingChar(found, le.workingServices, uuid, 0)
  {
    var r := GetSupportedServices(le, found);
    assert GetCharacteristic(le, uuid) == FirstByUuid(le.discovered, uuid);
    assert GetCharacteristic(r, uuid) == FirstByUuid(r.discovered, uuid);
    FirstByUuidAppend(le.discovered, Collect(found, le.workingServices, 0), uuid);
    CollectFirstByUuid(found, le.workingServices, uuid, 0);
  }

  /** The lookup reads only the discovered list. */
  lemma GetCharacteristicReadsDiscovered(a: LeState, b: LeState, uuid: string)
    requires a.discovered == b.discovered
    ensures GetCharacteristic(a, uuid) == GetCharacteristic(b, uuid)
  {
  }

  function CountCccdWrites(acts: seq<Action>): nat
  {
    if |acts| == 0 then 0
    else (if acts[0].WriteCccd? then 1 else 0) + CountCccdWrites(acts[1..])
  }

  lemma CountCccdWritesAppend(a: seq<Action>, b: seq<Action>)
    ensures CountCccdWrites(a + b) == CountCccdWrites(a) + CountCccdWrites(b)
  {
    if |a| > 0 {
      assert (a + b)[1..] == a[1..] + b;
    } else {
      assert a + b == b;
    }
  }

  /** The step leaves the queue's tail: the first `|q| - |q'|` entries were removed, the rest kept in order. */
  predicate DroppedPrefix(before: seq<Characteristic>, after: seq<Characteristic>)
  {
    |after| <= |before| && after == before[|before| - |after|..]
  }

  /** The queue, actions and report left by processing the notification queue. */
  datatype QueueStep = QueueStep(queue: seq<Characteristic>, acts: seq<Action>, up: Option<Upcall>)

  /**
   * `setNotificationForCharacteristic(head of the queue)`, on the queue alone;
   * `ready` is "adapter and GATT client present". Without them nothing
   * happens; a characteristic without transport handle throws. Otherwise the
   * platform notification flag is set and, when the characteristic has a
   * 0x2902 descriptor, the descriptor write is issued and the entry stays at
   * the head until its completion. Without the descriptor the entry is dropped
   * and the next one processed at once; dropping the last one reports
   * `CONNECT_SUCCESS`.
   */
  function ProcessQueue(ready: bool, q: seq<Characteristic>): (r: QueueStep)
    requires |q| > 0
    decreases |q|
    ensures DroppedPrefix(q, r.queue)
    ensures r.up.Some? ==> r.up == Some(ConnectResult(CONNECT_SUCCESS, 0)) && r.queue == []
  {
    var ch := q[0];
    if !ready then QueueStep(q, [], None)
    else match ch.handle
      case None => QueueStep(q, [Threw(NullPointer)], None)
      case Some(h) =>
        var setFlag := [SetCharacteristicNotification(h, ch.notify)];
        if HasCccd(h) then QueueStep(q, setFlag + [WriteCccd(h, ch.notify)], None)
        else if |q| == 1 then QueueStep([], setFlag, Some(ConnectResult(CONNECT_SUCCESS, 0)))
        else
          var rest := ProcessQueue(true, q[1..]);
          assert q[1..][|q| - 1 - |rest.queue|..] == q[|q| - |rest.queue|..];
          QueueStep(rest.queue, setFlag + rest.acts, rest.up)
  }

  /** Processing the head of the transport's notification queue: only the queue changes. */
  function NotifyHead(le: LeState): (r: LeStep)
    requires |le.notifyQueue| > 0
    ensures r.le == le.(notifyQueue := r.le.notifyQueue)
    ensures DroppedPrefix(le.notifyQueue, r.le.notifyQueue)
    ensures r.up.Some? ==> r.up == Some(ConnectResult(CONNECT_SUCCESS, 0)) && r.le.notifyQueue == []
  {
    var s := ProcessQueue(le.hasAdapter && le.hasGatt, le.notifyQueue);
    LeStep(le.(notifyQueue := s.queue), s.acts, s.up)
  }

  /**
   * At most one descriptor write is outstanding, and it is the last action
   * and for the entry left at the head of the queue.
   */
  lemma {:induction false} ProcessQueueWritesHeadOnly(ready: bool, q: seq<Characteristic>)
    requires |q| > 0
    decreases |q|
    ensures CountCccdWrites(ProcessQueue(ready, q).acts) <= 1
    ensures var r := ProcessQueue(ready, q);
            CountCccdWrites(r.acts) == 1 ==>
              |r.queue| > 0 && r.queue[0].handle.Some? &&
              r.acts[|r.acts| - 1] == WriteCccd(r.queue[0].handle.value, r.queue[0].notify)
  {
    var ch := q[0];
    if ready && ch.handle.Some? {
      var h := ch.handle.value;
      var setFlag := [SetCharacteristicNotification(h, ch.notify)];
      assert CountCccdWrites(setFlag) == 0 by { assert setFlag[1..] == []; }
      if HasCccd(h) {
        var write := [WriteCccd(h, ch.notify)];
        assert ProcessQueue(ready, q) == QueueStep(q, setFlag + write, None);
        CountCccdWritesAppend(setFlag, write);
        assert write[1..] == [];
      } else if |q| > 1 {
        var rest := ProcessQueue(true, q[1..]);
        assert ProcessQueue(ready, q) == QueueStep(rest.queue, setFlag + rest.acts, rest.up);
        ProcessQueueWritesHeadOnly(true, q[1..]);
        CountCccdWritesAppend(setFlag, rest.acts);
        if CountCccdWrites(rest.acts) == 1 {
          assert (setFlag + rest.acts)[|setFlag + rest.acts| - 1] == rest.acts[|rest.acts| - 1];
        }
      }
    }
  }

  /** Every entry dropped from the queue had a transport handle but no 0x2902 descriptor. */
  lemma {:induction false} ProcessQueueDropsPlain(ready: bool, q: seq<Characteristic>)
    requires |q| > 0
    decreases |q|
    ensures var r := ProcessQueue(ready, q);
            forall k :: 0 <= k < |q| - |r.queue| ==> q[k].handle.Some? && !HasCccd(q[k].handle.value)
  {
    var ch := q[0];
    if ready && ch.handle.Some? && !HasCccd(ch.handle.value) && |q| > 1 {
      ProcessQueueDropsPlain(true, q[1..]);
      var rest := ProcessQueue(true, q[1..]);
      assert ProcessQueue(ready, q).queue == rest.queue;
      forall k | 0 <= k < |q| - |rest.queue|
        ensures q[k].handle.Some? && !HasCccd(q[k].handle.value)
      {
        if k > 0 { assert q[k] == q[1..][k - 1]; }
      }
    }
  }

  /** Success is reported whenever the queue empties without an exception. */
  lemma {:induction false} ProcessQueueReportsSuccess(ready: bool, q: seq<Characteristic>)
    requires |q| > 0
    decreases |q|
    ensures var r := ProcessQueue(ready, q);
            r.queue == [] && ready && !(Threw(NullPointer) in r.acts) ==> r.up.Some?
  {
    var ch := q[0];
    if ready && ch.handle.Some? && !HasCccd(ch.handle.value) && |q| > 1 {
      ProcessQueueReportsSuccess(true, q[1..]);
      var rest := ProcessQueue(true, q[1..]);
      var setFlag := [SetCharacteristicNotification(ch.handle.value, ch.notify)];
      assert Threw(NullPointer) in rest.acts ==> Threw(NullPointer) in setFlag + rest.acts;
    }
  }

  /** Notification set-up only sets flags, writes descriptors or throws. */
  lemma {:induction false} ProcessQueueActions(ready: bool, q: seq<Characteristic>)
    requires |q| > 0
    decreases |q|
    ensures forall a :: a in ProcessQueue(ready, q).acts ==>
              a.SetCharacteristicNotification? || a.WriteCccd? || a.Threw?
  {
    var ch := q[0];
    if ready && ch.handle.Some? && !HasCccd(ch.handle.value) && |q| > 1 {
      ProcessQueueActions(true, q[1..]);
    }
  }

  /**
   * `setNotification(ch)`: appends `ch` to the queue and starts processing only
   * when it became the queue's only entry, so at most one descriptor write is
   * outstanding.
   */
  function SetNotification(le: LeState, ch: Characteristic): (r: LeStep)
    ensures |le.notifyQueue| > 0 ==> r == LeStep(le.(notifyQueue := le.notifyQueue + [ch]), [], None)
    ensures |le.notifyQueue| == 0 ==> r == NotifyHead(le.(notifyQueue := [ch]))
    ensures r.up.Some? ==> r.up == Some(ConnectResult(CONNECT_SUCCESS, 0))
    ensures CountCccdWrites(r.acts) <= 1
    ensures forall a :: a in r.acts ==> a.SetCharacteristicNotification? || a.WriteCccd? || a.Threw?
  {
    if |le.notifyQueue| == 0 then
      var le1 := le.(notifyQueue := [ch]);
      ProcessQueueActions(le.hasAdapter && le.hasGatt, [ch]);
      ProcessQueueWritesHeadOnly(le.hasAdapter && le.hasGatt, [ch]);
      NotifyHead(le1)
    else LeStep(le.(notifyQueue := le.notifyQueue + [ch]), [], None)
  }

  /** The 500 ms timer after a descriptor write: process the head, which must exist. */
  function NotifyDelayElapsed(le: LeState): (r: LeStep)
    ensures |le.notifyQueue| == 0 ==> r == LeStep(le, [Threw(NoSuchElement)], None)
    ensures |le.notifyQueue| > 0 ==> r == NotifyHead(le)
  {
    if |le.notifyQueue| == 0 then LeStep(le, [Threw(NoSuchElement)], None) else NotifyHead(le)
  }

  /**
   * `onDescriptorWrite`: a failure reports `CONNECT_FAIL` with the status and
   * empties the queue; a success removes the head, then schedules the next
   * head or, with the queue empty, reports that notification setup is done.
   */
  function OnDescriptorWrite(le: LeState, status: int): (r: LeStep)
    ensures status != GATT_SUCCESS ==>
              r == LeStep(le.(notifyQueue := []), [], Some(ConnectResult(CONNECT_FAIL, status)))
    ensures status == GATT_SUCCESS && |le.notifyQueue| == 0 ==> r == LeStep(le, [Threw(NoSuchElement)], None)
    ensures status == GATT_SUCCESS && |le.notifyQueue| > 0 ==>
              r.le == le.(notifyQueue := le.notifyQueue[1..]) &&
              (if |le.notifyQueue| > 1 then r.acts == [ScheduleNextNotify] && r.up.None?
               else r.acts == [] && r.up == Some(NotificationsReady))
  {
    if status != GATT_SUCCESS then
      LeStep(le.(notifyQueue := []), [], Some(ConnectResult(CONNECT_FAIL, status)))
    else if |le.notifyQueue| == 0 then
      LeStep(le, [Threw(NoSuchElement)], None)
    else
      var le1 := le.(notifyQueue := le.notifyQueue[1..]);
      if |le1.notifyQueue| > 0 then LeStep(le1, [ScheduleNextNotify], None)
      else LeStep(le1, [], Some(NotificationsReady))
  }

  /**
   * `onConnectionStateChange`. Link up: connected, high priority requested,
   * `CONNECT_SUCCESS` reported and discovery scheduled after the settle delay.
   * Link down with a failure status before ever being connected: `CONNECT_FAIL`
   * with that status. Any other link down: waiting writers are released, the
   * connection flag cleared and the disconnection reported.
   */
  function OnConnectionStateChange(le: LeState, status: int, newState: LinkState): (r: LeStep)
    ensures newState.LinkConnected? ==>
              r.le == le.(isConnected := true) && r.up == Some(ConnectResult(CONNECT_SUCCESS, 0)) &&
              ScheduleDiscovery in r.acts
    ensures newState.LinkDisconnected? && status != GATT_SUCCESS && !le.isConnected ==>
              r == LeStep(le, [], Some(ConnectResult(CONNECT_FAIL, status)))
    ensures newState.LinkDisconnected? && (status == GATT_SUCCESS || le.isConnected) ==>
              r.le == le.(isConnected := false) && r.up == Some(LinkDown) && r.acts == [ReleaseWaiters]
    ensures newState.LinkOther? ==> r == LeStep(le, [], None)
  {
    match newState
    case LinkConnected =>
      LeStep(le.(isConnected := true), [RequestHighPriority, ScheduleDiscovery], Some(ConnectResult(CONNECT_SUCCESS, 0)))
    case LinkDisconnected =>
      if status != GATT_SUCCESS && !le.isConnected then
        LeStep(le, [], Some(ConnectResult(CONNECT_FAIL, status)))
      else
        LeStep(le.(isConnected := false), [ReleaseWaiters], Some(LinkDown))
    case LinkOther(_) => LeStep(le, [], None)
  }

  /** The settle delay after link up has elapsed: start service discovery if a GATT client exists. */
  function DiscoveryDelayElapsed(le: LeState): (r: LeStep)
    ensures r.le == le && r.up.None?
    ensures r.acts == (if le.hasGatt then [DiscoverServices] else [])
  {
    LeStep(le, if le.hasGatt then [DiscoverServices] else [], None)
  }

  /** `onServicesDiscovered`: on success, collect the supported characteristics and tell the listener. */
  function OnServicesDiscovered(le: LeState, status: int, found: seq<GattService>): (r: LeStep)
    ensures status != GATT_SUCCESS ==> r == LeStep(le, [], None)
    ensures status == GATT_SUCCESS ==> r == LeStep(GetSupportedServices(le, found), [], Some(ServicesReady))
  {
    if status == GATT_SUCCESS then LeStep(GetSupportedServices(le, found), [], Some(ServicesReady))
    else LeStep(le, [], None)
  }

  /** `onCharacteristicWrite`: writers waiting for the acknowledgement are released (see `ReliableWriter`) and the listener told. */
  function OnCharacteristicWrite(le: LeState, ch: GattChar, status: int): (r: LeStep)
    ensures r.le == le && r.acts == [] && r.up == Some(DidWrite(ch, status))
  {
    LeStep(le, [], Some(DidWrite(ch, status)))
  }

  /** `requestCharacteristicValue(ch)`: a read, unless the adapter or the GATT client is gone. */
  function RequestCharacteristicValue(le: LeState, ch: Option<GattChar>): (acts: seq<Action>)
    ensures acts == [] <==> !le.hasAdapter || !le.hasGatt
    ensures acts != [] ==> acts == [ReadCharacteristic(ch)]
  {
    if !le.hasAdapter || !le.hasGatt then [] else [ReadCharacteristic(ch)]
  }

  /** `writeToCharacteristic(ch, data)`: returns 1 and writes nothing without a handle or GATT client, else 0. */
  function WriteToCharacteristic(le: LeState, ch: Option<GattChar>, data: ByteUtils.Bytes): (r: (int, seq<Action>))
    ensures r.0 == 1 <==> ch.None? || !le.hasGatt
    ensures r.0 == 1 ==> r.1 == []
    ensures r.0 != 1 ==> r.0 == 0 && r.1 == [WriteCharacteristic(ch.value, data)]
  {
    if ch.None? || !le.hasGatt then (1, []) else (0, [WriteCharacteristic(ch.value, data)])
  }
}
