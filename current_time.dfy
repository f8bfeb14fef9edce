/**
 The Current Time characteristic value the service returns on a read: the
 packed `bt_*` records, their construction from the calendar breakdown of the
 current time, and their byte layout (section 3.1 of the Bluetooth Current
 Time Service specification, version 1.1).
 */
module CurrentTime {
  import opened Wrappers
  import opened Integers

  /**
   The calendar breakdown `gmtime_r` fills in (`struct tm`): `year` counts
   years since 1900, `mon` is 0-based, `mday` is 1-based and `wday` counts
   days since Sunday.
   */
  datatype Tm = Tm(year: int, mon: int, mday: int, hour: int, min: int, sec: int, wday: int)

  /** The field ranges `gmtime_r` guarantees for the fields the service reads (`sec` allows a leap second). */
  predicate InRange(tm: Tm)
  {
    && 0 <= tm.mon <= 11
    && 1 <= tm.mday <= 31
    && 0 <= tm.hour <= 23
    && 0 <= tm.min <= 59
    && 0 <= tm.sec <= 60
    && 0 <= tm.wday <= 6
  }

  /** `struct bt_date_time`. */
  datatype DateTime = DateTime(year: uint16, mon: uint8, mday: uint8, hour: uint8, min: uint8, sec: uint8)

  /** `struct bt_day_date_time`: a date-time followed by the day of week (1 = Monday .. 7 = Sunday). */
  datatype DayDateTime = DayDateTime(dateTime: DateTime, dow: uint8)

  /** `struct bt_exact_time_256`: a day-date-time followed by the fraction of a second in 1/256 units. */
  datatype ExactTime256 = ExactTime256(dayDateTime: DayDateTime, s256: uint8)

  /** `struct bt_cur_time_resp`: the whole Current Time characteristic value. */
  datatype CurTimeResp = CurTimeResp(exactTime256: ExactTime256, adjReason: uint8)

  // Sizes of the packed records, in bytes (no padding between fields).
  const DateTimeSize := 7
  const DayDateTimeSize := DateTimeSize + 1
  const ExactTime256Size := DayDateTimeSize + 1
  const CurTimeRespSize := ExactTime256Size + 1

  /** Day of week on the wire: Sunday (tm_wday 0) becomes 7, Monday..Saturday keep 1..6. */
  function EncodeDow(wday: int): (dow: uint8)
    ensures 0 <= wday <= 6 ==> 1 <= dow <= 7 && DecodeDow(dow) == wday
    ensures wday == 0 ==> dow == 7
  {
    ToUint8(if wday == 0 then 7 else wday)
  }

  /** The weekday, counted from Sunday = 0, that a wire day of week stands for. */
  function DecodeDow(dow: uint8): (wday: int)
    ensures 1 <= dow <= 7 ==> 0 <= wday <= 6
  {
    if dow == 7 then 0 else dow
  }

  /** Every wire day of week 1..7 is hit: together with EncodeDow's contract, a bijection from 0..6 onto 1..7. */
  lemma EncodeDowOnto(dow: uint8)
    requires 1 <= dow <= 7
    ensures EncodeDow(DecodeDow(dow)) == dow
  {
  }

  /** Distinct weekdays get distinct wire values. */
  lemma EncodeDowInjective(w1: int, w2: int)
    requires 0 <= w1 <= 6 && 0 <= w2 <= 6
    requires EncodeDow(w1) == EncodeDow(w2)
    ensures w1 == w2
  {
  }

  /**
   The response record a read builds from the calendar breakdown `tm` and the
   fraction `s256` of the current second. Every field is assigned from an
   `int` expression, so it is reduced modulo the field's width. The day of
   month is `tm.mday + 1`, as the source writes it.
   */
  function BuildRecord(tm: Tm, s256: uint8): (r: CurTimeResp)
    ensures var dt := r.exactTime256.dayDateTime.dateTime;
      && (dt.year - (tm.year + 1900)) % 0x1_0000 == 0
      && (0 <= tm.year + 1900 < 0x1_0000 ==> dt.year == tm.year + 1900)
      && (InRange(tm) ==>
            && dt.mon == tm.mon + 1 && 1 <= dt.mon <= 12
            && dt.mday == tm.mday + 1 && 2 <= dt.mday <= 32
            && dt.hour == tm.hour && dt.min == tm.min && dt.sec == tm.sec)
    ensures InRange(tm) ==>
      var dow := r.exactTime256.dayDateTime.dow;
      1 <= dow <= 7 && DecodeDow(dow) == tm.wday
    ensures r.exactTime256.s256 == s256
    ensures r.adjReason == 0
  {
    var dateTime := DateTime(
      ToUint16(tm.year + 1900),
      ToUint8(tm.mon + 1),
      ToUint8(tm.mday + 1),
      ToUint8(tm.hour),
      ToUint8(tm.min),
      ToUint8(tm.sec));
    CurTimeResp(ExactTime256(DayDateTime(dateTime, EncodeDow(tm.wday)), s256), 0)
  }

  /**
   The day-of-month quirk: the last day of a month goes on the wire as 32,
   outside the range 1..31 the characteristic defines, and the first as 2.
   */
  lemma MdayQuirk(tm: Tm, s256: uint8)
    requires InRange(tm)
    ensures tm.mday == 31 ==>
      var mday := BuildRecord(tm, s256).exactTime256.dayDateTime.dateTime.mday;
      mday == 32 && !(1 <= mday <= 31)
    ensures tm.mday == 1 ==> BuildRecord(tm, s256).exactTime256.dayDateTime.dateTime.mday == 2
  {
  }

  // ---- byte layout: each packed record is its inner record's bytes followed by its own field ----

  function EncodeDateTime(d: DateTime): (b: seq<uint8>)
    ensures |b| == DateTimeSize
    ensures DecodeDateTime(b) == Some(d)
  {
    Le16(d.year) + [d.mon, d.mday, d.hour, d.min, d.sec]
  }

  function DecodeDateTime(b: seq<uint8>): (r: Option<DateTime>)
    ensures r.Some? <==> |b| == DateTimeSize
  {
    if |b| != DateTimeSize then None
    else Some(DateTime(FromLe16(b[..2]), b[2], b[3], b[4], b[5], b[6]))
  }

  function EncodeDayDateTime(d: DayDateTime): (b: seq<uint8>)
    ensures |b| == DayDateTimeSize
    ensures DecodeDayDateTime(b) == Some(d)
  {
    EncodeDateTime(d.dateTime) + [d.dow]
  }

  function DecodeDayDateTime(b: seq<uint8>): (r: Option<DayDateTime>)
    ensures r.Some? <==> |b| == DayDateTimeSize
  {
    if |b| != DayDateTimeSize then None
    else Some(DayDateTime(DecodeDateTime(b[..DateTimeSize]).value, b[DateTimeSize]))
  }

  function EncodeExactTime256(e: ExactTime256): (b: seq<uint8>)
    ensures |b| == ExactTime256Size
    ensures DecodeExactTime256(b) == Some(e)
  {
    EncodeDayDateTime(e.dayDateTime) + [e.s256]
  }

  function DecodeExactTime256(b: seq<uint8>): (r: Option<ExactTime256>)
    ensures r.Some? <==> |b| == ExactTime256Size
  {
    if |b| != ExactTime256Size then None
    else Some(ExactTime256(DecodeDayDateTime(b[..DayDateTimeSize]).value, b[DayDateTimeSize]))
  }

  /** The bytes the handler copies into the response: exactly 10, parsed back to the same record. */
  function Serialize(r: CurTimeResp): (b: seq<uint8>)
    ensures |b| == CurTimeRespSize == 10
    ensures Parse(b) == Some(r)
  {
    EncodeExactTime256(r.exactTime256) + [r.adjReason]
  }

  /** Reads a Current Time value back; anything but exactly 10 bytes is rejected. */
  function Parse(b: seq<uint8>): (r: Option<CurTimeResp>)
    ensures r.Some? <==> |b| == CurTimeRespSize
  {
    if |b| != CurTimeRespSize then None
    else Some(CurTimeResp(DecodeExactTime256(b[..ExactTime256Size]).value, b[ExactTime256Size]))
  }

  /** Every 10-byte value is the serialisation of the record it parses to. */
  lemma SerializeParse(b: seq<uint8>)
    requires |b| == CurTimeRespSize
    ensures Serialize(Parse(b).value) == b
  {
    var e := b[..ExactTime256Size];
    var d := e[..DayDateTimeSize];
    var t := d[..DateTimeSize];
    assert EncodeDateTime(DecodeDateTime(t).value) == t;
    assert EncodeDayDateTime(DecodeDayDateTime(d).value) == d;
    assert EncodeExactTime256(DecodeExactTime256(e).value) == e;
  }

  /**
   The wire layout: the year little-endian in bytes 0 and 1, then month, day,
   hours, minutes, seconds, day of week, fractions256 and adjust reason.
   */
  lemma SerializeLayout(r: CurTimeResp)
    ensures var b := Serialize(r);
      var dt := r.exactTime256.dayDateTime.dateTime;
      && b[0] == dt.year % 0x100
      && b[1] == dt.year / 0x100
      && b[2..] == [dt.mon, dt.mday, dt.hour, dt.min, dt.sec,
                    r.exactTime256.dayDateTime.dow, r.exactTime256.s256, r.adjReason]
  {
  }
}
