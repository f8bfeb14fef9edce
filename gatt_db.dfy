/**
 The attribute table `time_svc_gatt_db` handed to the stack when the service
 is registered: one primary service declaration, one characteristic
 declaration advertising the read property, and the Current Time value
 attribute, whose reads the application answers itself.
 */
module GattDb {

  /** Who answers reads of an attribute: the stack from the stored value, or the application's handler. */
  datatype RspControl = AutoRsp | RspByApp

  /** The 16-bit UUIDs the table refers to, by their assigned-number names. */
  datatype Uuid16 = PrimaryService | CharacteristicDeclaration | CurrentTimeService | CurrentTimeChar

  /** The initial value an attribute is registered with. */
  datatype AttrValue =
    | NoValue                   // NULL: the value is supplied per read
    | UuidValue(uuid: Uuid16)   // a 16-bit UUID, as a service declaration holds
    | CharPropRead              // characteristic properties: read only

  /** One `esp_gatts_attr_db_t` entry: response control, type UUID, declared maximum and current length, value. */
  datatype AttrDesc = AttrDesc(control: RspControl, uuidLength: nat, uuid: Uuid16,
                               maxLength: nat, length: nat, value: AttrValue)

  const UuidLen16 := 2
  const UuidLen128 := 16

  /** Index of the Current Time value attribute; the creation event reports its handle at the same index. */
  const ValueAttrIndex := 2

  /**
   The table, in registration order. Only the value attribute is answered by
   the application; the two declarations are constant and the stack answers
   them from their stored values.
   */
  function TimeSvcGattDb(): (db: seq<AttrDesc>)
    ensures |db| == 3
    ensures db[0].uuid == PrimaryService && db[0].value == UuidValue(CurrentTimeService)
    ensures db[1].uuid == CharacteristicDeclaration && db[1].value == CharPropRead
    ensures db[ValueAttrIndex].uuid == CurrentTimeChar && db[ValueAttrIndex].value == NoValue
    ensures forall i :: 0 <= i < |db| ==> (db[i].control == RspByApp <==> i == ValueAttrIndex)
    ensures forall i :: 0 <= i < |db| ==> db[i].uuidLength == UuidLen16 && db[i].length <= db[i].maxLength
    ensures forall i :: 0 <= i < |db| ==> (db[i].value == NoValue <==> db[i].length == 0)
  {
    [ AttrDesc(AutoRsp, UuidLen16, PrimaryService, UuidLen128, UuidLen16, UuidValue(CurrentTimeService)),
      AttrDesc(AutoRsp, UuidLen16, CharacteristicDeclaration, 1, 1, CharPropRead),
      AttrDesc(RspByApp, UuidLen16, CurrentTimeChar, 0, 0, NoValue) ]
  }
}
