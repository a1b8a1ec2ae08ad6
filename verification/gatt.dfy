/**
 * The platform side of a GATT session as the core sees it: transport handles
 * for discovered characteristics and services, status constants, and the
 * actions the core performs on the transport or reports to its listeners.
 */
module Gatt {
  import opened Wrappers
  import opened JavaTypes
  import ByteUtils
  import Text

  /** `BluetoothGatt.GATT_SUCCESS`. */
  const GATT_SUCCESS: int := 0

  /** Result codes passed from the transport wrapper to its listener. */
  const CONNECT_SUCCESS: int := 1
  const CONNECT_FAIL: int := 2

  /**
   * The Client Characteristic Configuration descriptor (Bluetooth Core
   * Specification, Vol 3, Part G, section 3.3.3.3), whose value switches
   * notifications of its characteristic on or off.
   */
  const CCCD_UUID: string := "00002902-0000-1000-8000-00805f9b34fb"

  /**
   * A transport characteristic handle (`BluetoothGattCharacteristic`). Handles
   * are compared by identity in the source; `id` stands for that identity.
   */
  datatype GattChar = GattChar(id: nat, uuid: string, descriptors: seq<string>, writeType: int)

  /** `o == h` on Java references: `o` is a handle with the identity of `h`, whatever its write type now is. */
  predicate SameHandle(o: Option<GattChar>, h: GattChar)
  {
    o.Some? && o.value.id == h.id
  }

  /** `getDescriptor(0x2902) != null`. */
  predicate HasCccd(ch: GattChar)
  {
    exists i :: 0 <= i < |ch.descriptors| && Text.EqualsIgnoreCase(ch.descriptors[i], CCCD_UUID)
  }

  /** A discovered service (`BluetoothGattService`). */
  datatype GattService = GattService(uuid: string, chars: seq<GattChar>)

  /** The `newState` argument of `onConnectionStateChange`. */
  datatype LinkState = LinkConnected | LinkDisconnected | LinkOther(code: int)

  /** One entry of the action trace a session produces. */
  datatype Action =
      // calls into the platform transport
    | StartLeScan
    | StopLeScan
    | ConnectGatt(address: string)
    | RefreshCache
    | DisconnectGatt
    | CloseGatt
    | RequestHighPriority
    | ScheduleDiscovery
    | DiscoverServices
    | SetCharacteristicNotification(ch: GattChar, enable: bool)
    | WriteCccd(ch: GattChar, enable: bool)
    | ScheduleNextNotify
    | ReadCharacteristic(target: Option<GattChar>)
    | WriteCharacteristic(ch: GattChar, bytes: ByteUtils.Bytes)
    | ReleaseWaiters
      // the chunk write of `FioTManager`, whose callee is not part of this model
    | IssueWrite(target: Option<GattChar>, bytes: ByteUtils.Bytes)
      // callbacks to the application
    | OnConnected
    | OnConnectFail(code: int)
    | OnDisconnected
    | Sent(num: nat)
      // an exception escaping the handler; nothing after it runs
    | Threw(e: JavaException)
}
