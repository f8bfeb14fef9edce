# Bluetooth LE Current Time Service (read-only) — Dafny model

This project models `src/mgos_bt_svc_time.c`, a minimal GATT Current Time
Service for a Bluetooth LE peripheral. A central (such as a phone) can read the
device's UTC time from it. The model has three parts.

- **Attribute table** (`GattDb`). `time_svc_gatt_db` has three entries:
  1. the primary service declaration of the Current Time Service;
  2. a characteristic declaration that advertises the read property;
  3. the Current Time value attribute, whose reads the application answers.
  The stack answers reads of the two declarations from their stored values.
- **Event handler** (`TimeService`). `time_svc_ev` is the class `TimeSvc`. It
  has one field, `currentTimeAh`, the cached handle of the value attribute,
  and it starts at 0 like the C static. `HandleEvent` is proved against the
  specification function `Dispatch`:
  - a table-created event caches `handles[2]`;
  - a read is served only when it names the cached handle at offset 0 and
    the calendar breakdown succeeds;
  - every other event is not consumed.
  The response the C code passes to `esp_ble_gatts_send_response` is the
  handler's output. `Run` applies the handler to a sequence of events, as
  the stack delivers them. The lemmas about `Run` state what holds across
  events: which handle is cached, which reads are answered, and what a read
  before any creation event gets.
- **Record encoder** (`CurrentTime`). `BuildRecord` maps a `struct tm` and
  the 1/256-second fraction to the nested packed records `bt_date_time`,
  `bt_day_date_time`, `bt_exact_time_256` and `bt_cur_time_resp`.
  `Serialize` lays them out as 10 bytes, year first and little-endian, and
  `Parse` reads the bytes back. The two are proved inverse in both
  directions. The byte layout follows section 3.1 of the Bluetooth Current
  Time Service specification, version 1.1.

`Init` models `mgos_bt_service_time_init`. It registers the table (three
entries) when the enable flag is set, and it always reports success.

The C code assigns `int` expressions to `uint8_t` and `uint16_t` fields.
The model writes out those conversions as reduction modulo 2^8 and 2^16
(`ToUint8`, `ToUint16`). Under the ranges that `gmtime_r` guarantees
(`InRange`), every field keeps its value, except a year outside 0..65535.

The day of month is encoded as `tm_mday + 1`, as the source writes it
(line 107). `struct tm` already counts days from 1, so the 15th goes on the
wire as 16 and the 31st as 32. The value 32 is outside the range 1..31 that
the characteristic defines. The model keeps this behaviour so that it stays
bit-exact with deployed devices. `BuildRecord` states the resulting range
2..32, and `MdayQuirk` shows the two ends of that range.

Two behaviours of the handler's state:
- `time_svc_ev` overwrites the cached handle on every table-created event
  (line 89), not only on the first. `RunCachesLastCreated` states that the
  cached handle is always that of the most recent creation event.
- A read of handle 0 before any creation event matches the zero-initialised
  cache (lines 33 and 95) and would be served. `ReadBeforeCreateNotServed`
  states that no read of a nonzero handle is served before creation. Handle
  0x0000 is reserved by section 3.2.2 of the Bluetooth Core Specification,
  Vol 3, Part F, so no valid read names it.

## Model

| member | source | states |
|---|---|---|
| `Integers.ToUint16` | src/mgos_bt_svc_time.c:105 | storing an `int` in a `uint16_t` field gives the in-range value congruent to it modulo 2^16, and keeps values already in range |
| `Integers.ToUint8` | src/mgos_bt_svc_time.c:106-112 | storing an `int` in a `uint8_t` field gives the in-range value congruent to it modulo 2^8, and keeps values already in range |
| `Integers.Le16` | src/mgos_bt_svc_time.c:59-60 | the packed `uint16_t` year occupies two bytes whose little-endian value is the year |
| `Integers.FromLe16` | src/mgos_bt_svc_time.c:59-60 | reading two bytes as a little-endian `uint16_t` inverts `Le16` for every pair of bytes |
| `CurrentTime.EncodeDow` | src/mgos_bt_svc_time.c:111-112 | Sunday (0) becomes 7; every weekday 0..6 maps into 1..7 and is recovered by `DecodeDow`, so the mapping is injective |
| `CurrentTime.DecodeDow` | src/mgos_bt_svc_time.c:111-112 | every wire day of week 1..7 stands for a weekday in 0..6 |
| `CurrentTime.EncodeDowOnto` | src/mgos_bt_svc_time.c:111-112 | every wire value 1..7 is the image of a weekday, so the mapping is onto 1..7 |
| `CurrentTime.EncodeDowInjective` | src/mgos_bt_svc_time.c:111-112 | two weekdays in 0..6 with the same wire value are equal |
| `CurrentTime.BuildRecord` | src/mgos_bt_svc_time.c:98-114 | the year is tm_year + 1900 modulo 2^16 (exact when it fits); under gmtime_r's ranges the month is tm_mon + 1 in 1..12, the day is tm_mday + 1 in 2..32, hour, minute and second are unchanged, and the day of week is in 1..7 and decodes to tm_wday; the fraction is the given s256; the adjust reason is 0 |
| `CurrentTime.MdayQuirk` | src/mgos_bt_svc_time.c:107 | the 31st of a month is sent as 32, outside the range 1..31, and the 1st as 2 |
| `CurrentTime.EncodeDateTime` | src/mgos_bt_svc_time.c:59-66 | `bt_date_time` packs into exactly 7 bytes, which decode back to the same record |
| `CurrentTime.DecodeDateTime` | src/mgos_bt_svc_time.c:59-66 | a date-time is decoded exactly when it is given 7 bytes |
| `CurrentTime.EncodeDayDateTime` | src/mgos_bt_svc_time.c:68-71 | `bt_day_date_time` packs into exactly 8 bytes, the day of week after the date-time, which decode back to the same record |
| `CurrentTime.DecodeDayDateTime` | src/mgos_bt_svc_time.c:68-71 | a day-date-time is decoded exactly when it is given 8 bytes |
| `CurrentTime.EncodeExactTime256` | src/mgos_bt_svc_time.c:73-76 | `bt_exact_time_256` packs into exactly 9 bytes, the fraction last, which decode back to the same record |
| `CurrentTime.DecodeExactTime256` | src/mgos_bt_svc_time.c:73-76 | an exact-time record is decoded exactly when it is given 9 bytes |
| `CurrentTime.Serialize` | src/mgos_bt_svc_time.c:115-118 | the bytes copied into the response are exactly 10 (`sizeof(resp)`), and parsing them gives back the record |
| `CurrentTime.Parse` | src/mgos_bt_svc_time.c:78-81 | a Current Time value is parsed exactly when it is 10 bytes long |
| `CurrentTime.SerializeParse` | src/mgos_bt_svc_time.c:59-81 | every 10-byte value is the serialisation of the record it parses to, so `Serialize` is onto the 10-byte values and the two are inverse |
| `CurrentTime.SerializeLayout` | src/mgos_bt_svc_time.c:59-81 | byte 0 is the low byte of the year and byte 1 the high byte; bytes 2..9 are month, day, hours, minutes, seconds, day of week, fractions256 and adjust reason, in that order |
| `GattDb.TimeSvcGattDb` | src/mgos_bt_svc_time.c:35-55 | three entries in order: service declaration (holding the Current Time Service UUID), characteristic declaration (read property), Current Time value; only the value attribute is answered by the application; every type UUID is 16-bit; each declared length is at most its maximum; an entry has no initial value exactly when its length is 0 |
| `TimeService.Dispatch` | src/mgos_bt_svc_time.c:83-128 | a creation event caches `handles[2]` and nothing else changes the cache; the event is consumed if and only if a response is sent, if and only if it is a read of the cached handle at offset 0 whose breakdown succeeds; that response carries the session's interface and connection, the read's transaction id and handle, offset 0 and status OK, and its 10 bytes parse to the record built from the breakdown |
| `TimeService.TimeSvc.constructor` | src/mgos_bt_svc_time.c:33 | the cached handle starts at 0, like the zero-initialised static |
| `TimeService.TimeSvc.HandleEvent` | src/mgos_bt_svc_time.c:83-128 | the new cached handle, the consumed flag and the response sent are those `Dispatch` gives for the old cached handle |
| `TimeService.Run` | src/mgos_bt_svc_time.c:83-128 | over any sequence of events, at most one response per event is sent, and each is 10 bytes, offset 0, status OK |
| `TimeService.RunSnoc` | src/mgos_bt_svc_time.c:83-128 | handling one more event extends the run by exactly one handler step |
| `TimeService.RunCachesLastCreated` | src/mgos_bt_svc_time.c:87-90 | after any sequence of events, the cached handle is `handles[2]` of the most recent creation event, or the initial handle when there was none |
| `TimeService.RunServesOnlyCachedHandle` | src/mgos_bt_svc_time.c:95-97 | between creation events the cached handle does not change, and every response answers a read of that handle |
| `TimeService.RunNoMatchingRead` | src/mgos_bt_svc_time.c:95-97 | when no read names the cached handle and no creation event arrives, nothing is sent |
| `TimeService.ReadBeforeCreateNotServed` | src/mgos_bt_svc_time.c:95-97 | from the initial state, before any creation event, no read of a nonzero handle is answered |
| `TimeService.Init` | src/mgos_bt_svc_time.c:130-136 | init always succeeds; it registers exactly when the service is enabled, and then registers the three-entry table with a count equal to its length |

## Left out

- `cs_time()` and the fraction arithmetic `(now - time) / (1.0 / 256)` (lines 99-100 and 113) are floating point. The handler takes the fraction as a `uint8` input (`Clock.s256`).
- `gmtime_r` is a libc call. Its result is an input, `Clock.breakdown`, and `None` stands for its failure. The field ranges it guarantees are the predicate `InRange`. The model does not require them, because the encoder is total.
- `CurrentTime.BuildRecord`: the year is computed over unbounded integers. The overflow of the C `int` sum `tm_year + 1900` is not modelled; `gmtime_r` keeps the year within an `int`.
- `mgos_sys_config_get_bt_time_svc_enable` (configuration lookup) is the boolean parameter of `Init`.
- `esp_ble_gatts_send_response` is modelled as the handler's `response` output. `mgos_bt_gatts_register_service` is modelled as the `Registration` value that `Init` returns. The handler function passed to registration is not recorded in that value.
- The numeric values of the UUIDs, the characteristic-property byte and the permission bits (`ESP_GATT_PERM_READ` on every entry) are not modelled. UUIDs and values are symbolic constructors.
- The session is reduced to its GATT interface and connection id. Read-event fields the handler does not use (connection id, device address, `is_long`, `need_rsp`) are left out. Every event kind other than table-created and read is `Other`.
- `Integers.Le16`: the byte layout assumes the little-endian ESP32 host. The source copies the packed struct with `memcpy` (line 118), so on a big-endian host the year's bytes would be swapped; that host is not modelled.
- The response buffer `rsp.attr_value.value` has a fixed capacity. It is modelled as a sequence whose length is `len`.
- `TimeService.Dispatch` and `TimeService.TimeSvc.HandleEvent` require a table-created event to carry at least three handles. The source reads `handles[2]` without a check. It relies on the stack reporting one handle per table entry.
- Concurrency: the stack is assumed to deliver events one at a time, and the model is sequential.
