/** The `updated()` route: run the set-point decision, build the heater
    record the controller expects, field by field in wire order, and sign it
    with the checksum in its two-digit hexadecimal form. */
module Directive {
  import opened Results
  import opened Codec
  import PyText
  import Control

  /** `strftime('%w')`: 0 is Sunday. */
  type Weekday = w: int | 0 <= w < 7
  type Hour = h: int | 0 <= h < 24
  type Minute = m: int | 0 <= m < 60

  /** The wall-clock reading the `Now` field is built from. */
  datatype WallTime = WallTime(weekday: Weekday, hour: Hour, minute: Minute)

  /** `chr(ord(strftime('%w')) + 1)`: the controller counts Sunday as 1. */
  function DayDigit(w: Weekday): (c: char)
    ensures '1' <= c <= '7' && PyText.DigitValue(c) == w + 1
  {
    (PyText.DigitChar(w) as int + 1) as char
  }

  /** The `Now` field: `<day 1-7>,<HH>:<MM>`. */
  function NowField(t: WallTime): string {
    [DayDigit(t.weekday)] + "," + PyText.TwoDigits(t.hour) + ":" + PyText.TwoDigits(t.minute)
  }

  /** Reads a `Now` field back into a wall-clock reading. */
  function ParseNow(s: string): Option<WallTime> {
    if |s| == 7 && '1' <= s[0] <= '7' && s[1] == ',' && s[4] == ':'
       && PyText.IsDigits(s[2..4]) && PyText.IsDigits(s[5..])
    then
      var h := PyText.ParseNat(s[2..4]);
      var m := PyText.ParseNat(s[5..]);
      if h < 24 && m < 60 then Some(WallTime(PyText.DigitValue(s[0]) - 1, h, m)) else None
    else
      None
  }

  /** The `Now` field is seven characters from which the weekday, hour and
      minute read back unchanged. */
  lemma NowRoundTrip(t: WallTime)
    ensures |NowField(t)| == 7
    ensures ParseNow(NowField(t)) == Some(t)
  {
    var s := NowField(t);
    var hh := PyText.TwoDigits(t.hour);
    var mm := PyText.TwoDigits(t.minute);
    PyText.TwoDigitsRoundTrip(t.hour);
    PyText.TwoDigitsRoundTrip(t.minute);
    assert s == [DayDigit(t.weekday), ','] + hh + [':'] + mm;
    assert s[0] == DayDigit(t.weekday) && s[1] == ',' && s[4] == ':';
    assert s[2..4] == hh;
    assert s[5..] == mm;
  }

  /** The keys of the heater record, in the order the controller parses them. */
  const DirectiveKeys := ["Id", "IsOn", "CurrentTemp", "SetTemp", "Now", "UserNumber", "ProgramNumber", "Mode", "Prg"]

  /** True when `h` carries the constant values `updated()` writes: `Id` 0,
      `IsOn` False, `CurrentTemp` 49 (not the reading), `ProgramNumber` 3,
      `Mode` "MAN" and `Prg` "19:00,45". */
  predicate FixedFields(h: seq<Field>)
    requires |h| == |DirectiveKeys|
  {
    && h[0].value == IntV(0) && h[1].value == BoolV(false) && h[2].value == IntV(49)
    && h[6].value == IntV(3) && h[7].value == StrV("MAN") && h[8].value == StrV("19:00,45")
  }

  /** The heater record as `updated()` fills it: the keys in wire order, the
      three values that vary in their slots, and constants everywhere else. */
  function Heater(setTemp: int, now: string, userNumber: int): (h: seq<Field>)
    ensures |h| == |DirectiveKeys|
    ensures forall i :: 0 <= i < |h| ==> h[i].key == DirectiveKeys[i]
    ensures FixedFields(h)
    ensures h[3].value == IntV(setTemp) && h[4].value == StrV(now) && h[5].value == IntV(userNumber)
  {
    [ Field("Id", IntV(0)),
      Field("IsOn", BoolV(false)),
      Field("CurrentTemp", IntV(49)),
      Field("SetTemp", IntV(setTemp)),
      Field("Now", StrV(now)),
      Field("UserNumber", IntV(userNumber)),
      Field("ProgramNumber", IntV(3)),
      Field("Mode", StrV("MAN")),
      Field("Prg", StrV("19:00,45")) ]
  }

  /** Every field of the heater record but `UserNumber` can always be
      encoded, so the checksum fails exactly when the user number is outside
      the 4-byte range. */
  lemma HeaterEncodable(setTemp: int, now: string, userNumber: int)
    ensures AllEncodable(Heater(setTemp, now, userNumber)) <==> 0 <= userNumber < Word
  {
    var h := Heater(setTemp, now, userNumber);
    if 0 <= userNumber < Word {
      forall f | f in h
        ensures Encodable(f)
      {
        var i :| 0 <= i < |h| && h[i] == f;
      }
    } else {
      assert h[5] in h && !Encodable(h[5]);
    }
  }

  /** The signed reply: the heater record and its checksum text. */
  datatype Response = Response(heater: seq<Field>, checkSum: string)

  /** What a poll leaves behind: the new state, and the reply or the
      exception the handler raised after the state had already changed. */
  datatype Poll = Poll(next: AppState, response: Result<Response>)

  type AppState = Control.AppState

  /** True when `c` is two upper-case hexadecimal digits that read back as
      the checksum of `heater`. */
  predicate SignsRecord(c: string, heater: seq<Field>) {
    && |c| == 2 && PyText.IsUpperHexDigit(c[0]) && PyText.IsUpperHexDigit(c[1])
    && 16 * PyText.HexDigitValue(c[0]) + PyText.HexDigitValue(c[1]) == (Seed + TotalWeight(heater)) % 256
  }

  /** `{'heater': heater, 'checkSum': "{:02x}".format(calc_hash(heater)).upper()}`:
      the reply exists exactly when every field can be encoded, and its
      checksum text reads back as (181 + sum of contributions) mod 256. */
  function Sign(heater: seq<Field>): (r: Result<Response>)
    ensures r.Ok? <==> AllEncodable(heater)
    ensures r.Ok? ==> r.value.heater == heater && SignsRecord(r.value.checkSum, heater)
  {
    match Checksum(heater, Seed)
    case Err(e) => Err(e)
    case Ok(h) =>
      PyText.HexByteShape(h);
      Ok(Response(heater, PyText.HexByte(h)))
  }

  /** The `updated()` route at time `now` (microseconds) and wall-clock
      reading `wall`, for the parsed `UserNumber` argument. The state always
      takes the decision's step. The reply exists exactly when the user
      number is present and fits in four bytes; it then carries the keys in
      wire order, the post-state set point as `SetTemp`, and a checksum of
      two upper-case hexadecimal digits that reads back as
      (181 + sum of the fields' contributions) mod 256. The requested user
      number is echoed in `UserNumber`; the other fields are constants. */
  function Updated(s: AppState, now: int, wall: WallTime, userNumber: Option<int>): (r: Poll)
    ensures r.next == Control.Decide(s, now).next
    ensures r.response.Ok? <==> userNumber.Some? && 0 <= userNumber.value < Word
    ensures r.response.Ok? ==>
      var h := r.response.value.heater;
      && |h| == |DirectiveKeys|
      && (forall i :: 0 <= i < |h| ==> h[i].key == DirectiveKeys[i])
      && h[3].value == IntV(r.next.setTemp)
      && h[4].value == StrV(NowField(wall))
      && h[5].value == IntV(userNumber.value)
      && FixedFields(h)
      && SignsRecord(r.response.value.checkSum, h)
  {
    var d := Control.Decide(s, now);
    if userNumber.None? then
      Poll(d.next, Err(MissingUserNumber))
    else
      var heater := Heater(d.directive, NowField(wall), userNumber.value);
      HeaterEncodable(d.directive, NowField(wall), userNumber.value);
      Poll(d.next, Sign(heater))
  }

  /** The directive always asks for the set point the server now holds. */
  lemma DirectiveCarriesSetPoint(s: AppState, now: int, wall: WallTime, user: int)
    requires 0 <= user < Word
    ensures Updated(s, now, wall, Some(user)).response.Ok?
    ensures Updated(s, now, wall, Some(user)).response.value.heater[3]
         == Field(SetTempKey, IntV(Updated(s, now, wall, Some(user)).next.setTemp))
  {
  }

  /** The heater record logged in the `updated()` docstring. */
  function DocumentedRecord(): seq<Field> {
    [ Field("Id", IntV(0)), Field("IsOn", BoolV(false)),
      Field("CurrentTemp", IntV(49)), Field("SetTemp", IntV(10)),
      Field("Now", StrV("7,19:45")), Field("UserNumber", IntV(25564181)),
      Field("ProgramNumber", IntV(3)), Field("Mode", StrV("PRG")),
      Field("Prg", StrV("19:00,10")) ]
  }

  /** Character-code sums of the documented record's text fields. */
  lemma DocumentedTextWeights()
    ensures OrdSum("7,19:45") == 368
    ensures OrdSum("PRG") == 233
    ensures OrdSum("19:00,10") == 401
  {
    SumByFromFront("7,19:45", Ord);
    SumByFromFront("PRG", Ord);
    SumByFromFront("19:00,10", Ord);
  }

  /** An integer under a key other than `SetTemp` contributes its four
      big-endian bytes. */
  lemma IntFieldWeight(key: string, n: int, bytes: seq<nat>)
    requires key != SetTempKey && 0 <= n < Word && bytes == BigEndian4(n)
    ensures Encodable(Field(key, IntV(n)))
    ensures Weight(Field(key, IntV(n))) == bytes[0] + bytes[1] + bytes[2] + bytes[3]
  {
    SumBytes4(bytes);
  }

  /** Text under a key other than `SetTemp` contributes its character codes. */
  lemma TextFieldWeight(key: string, text: string)
    requires key != SetTempKey
    ensures Encodable(Field(key, StrV(text))) && Weight(Field(key, StrV(text))) == OrdSum(text)
  {
  }

  /** The contributions of the documented record's first four fields. */
  lemma DocumentedHeadWeights()
    ensures var h := DocumentedRecord();
      && Encodable(h[0]) && Weight(h[0]) == 0 && Encodable(h[1]) && Weight(h[1]) == 0
      && Encodable(h[2]) && Weight(h[2]) == 49 && Encodable(h[3]) && Weight(h[3]) == 97
  {
    IntFieldWeight("Id", 0, [0, 0, 0, 0]);
    BoolSummedAsInt("IsOn", false);
    IntFieldWeight("CurrentTemp", 49, [0, 0, 0, 49]);
    SetTempTenIs97();
  }

  /** The contributions of the documented record's `UserNumber` and
      `ProgramNumber`. */
  lemma DocumentedNumberWeights()
    ensures var h := DocumentedRecord();
      && Encodable(h[5]) && Weight(h[5]) == 176 && Encodable(h[6]) && Weight(h[6]) == 3
  {
    IntFieldWeight("UserNumber", 25564181, [1, 134, 20, 21]);
    IntFieldWeight("ProgramNumber", 3, [0, 0, 0, 3]);
  }

  /** The contributions of the documented record's text fields. */
  lemma DocumentedTextFieldWeights()
    ensures var h := DocumentedRecord();
      && Encodable(h[4]) && Weight(h[4]) == 368 && Encodable(h[7]) && Weight(h[7]) == 233
      && Encodable(h[8]) && Weight(h[8]) == 401
  {
    TextFieldWeight("Now", "7,19:45");
    TextFieldWeight("Mode", "PRG");
    TextFieldWeight("Prg", "19:00,10");
    DocumentedTextWeights();
  }

  /** The contribution of each field of the documented record. */
  lemma DocumentedFieldWeights()
    ensures var h := DocumentedRecord();
      && (forall i :: 0 <= i < |h| ==> Encodable(h[i]))
      && Weight(h[0]) == 0 && Weight(h[1]) == 0 && Weight(h[2]) == 49
      && Weight(h[3]) == 97 && Weight(h[4]) == 368 && Weight(h[5]) == 176
      && Weight(h[6]) == 3 && Weight(h[7]) == 233 && Weight(h[8]) == 401
  {
    DocumentedHeadWeights();
    DocumentedNumberWeights();
    DocumentedTextFieldWeights();
  }

  /** The documented record sums to 1327, so with the seed 181 its checksum
      is 1508 mod 256 = 0xE4. */
  lemma DocumentedTotalWeight()
    ensures AllEncodable(DocumentedRecord())
    ensures TotalWeight(DocumentedRecord()) == 1327
  {
    var h := DocumentedRecord();
    DocumentedFieldWeights();
    SumOfNine(h, Weight);
    AllEncodableByIndex(h);
  }

  /** The record logged in the `updated()` docstring, with `SetTemp` 10 and
      `Now` "7,19:45", checksums to E4, as logged. */
  lemma DocumentedExampleIsE4()
    ensures Checksum(DocumentedRecord(), Seed) == Ok(0xE4)
    ensures PyText.HexByte(0xE4) == "E4"
  {
    DocumentedTotalWeight();
    assert PyText.LowerHex(0xE4) == "e4" by {
      assert PyText.LowerHex(0xE) == "e";
    }
  }

  /** A sum over a nine-field record, term by term. */
  lemma SumOfNine<T>(xs: seq<T>, w: T -> nat)
    requires |xs| == 9
    ensures SumBy(xs, w) == w(xs[0]) + w(xs[1]) + w(xs[2]) + w(xs[3]) + w(xs[4])
                          + w(xs[5]) + w(xs[6]) + w(xs[7]) + w(xs[8])
  {
    SumByPrefix(xs, 1, w);
    SumByPrefix(xs, 2, w);
    SumByPrefix(xs, 3, w);
    SumByPrefix(xs, 4, w);
    SumByPrefix(xs, 5, w);
    SumByPrefix(xs, 6, w);
    SumByPrefix(xs, 7, w);
    SumByPrefix(xs, 8, w);
    SumByPrefix(xs, 9, w);
    assert xs[..0] == [];
    assert xs[..9] == xs;
  }

  /** Index-wise encodability is encodability of every field. */
  lemma AllEncodableByIndex(h: seq<Field>)
    requires forall i :: 0 <= i < |h| ==> Encodable(h[i])
    ensures AllEncodable(h)
  {
    forall f | f in h
      ensures Encodable(f)
    {
      var i :| 0 <= i < |h| && h[i] == f;
    }
  }
}
