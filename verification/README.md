# thermobit control core in Dafny

A model of the decision and signing logic of the thermobit heater server
(`thermobit/server.py`). A water-heater controller reports its temperature
(`/home/espcreate/`) and polls every 15 seconds for a directive
(`/home/updated`). The server keeps one in-memory `AppState` record: the
last reading, the set point and when the set point was written. A user can
override the set point (`/set_temp`, `/main`). On every poll the server
decides the next set point, builds the nine-field heater record in the
order the controller parses it, and signs it with a one-byte additive
checksum written as two upper-case hexadecimal digits.

Modules:

- `Results` — `Option`, and a `Result` carrying either a value or the Python
  exception the code raises (`OverflowError` from `int.to_bytes`, the
  `TypeError` of `int(None)` for a missing `UserNumber`).
- `PyText` — the Python conversions the code depends on: `str()`/`int()` of
  integers, `format(n, 'x')`, zero padding, `str.upper()` on ASCII,
  `strftime('%H')`/`('%M')`.
- `Codec` — `calc_hash`: the heater record as an ordered sequence of
  key/value fields whose values are Python `int`, `bool` or `str`; the loop
  as written (`CalcHash`), and its closed form (`Checksum`).
- `Control` — `AppState`, the set-point decision of `updated()`, the
  override of `set_temp()` and `main_page()`, the `CurTemp` ingest.
- `Directive` — the `Now` field, the heater record and the whole `updated()`
  route, including the state change that happens before an exception.
- `Session` — requests applied in clock order to the start-up state, and
  the invariant that follows.

Time is an integer number of microseconds, the resolution of Python's
`datetime`; the clock and the wall-clock fields are parameters instead of
calls to `datetime.now()`.

The comments at `thermobit/server.py` lines 230 and 236 describe a limit
on heating for over one hour. The code does other things, and the model
follows the code:

- It tests `set_temp_time < now + 1h`. A stamp that is not in the future
  always passes this test. So while the clock never steps back, the
  one-hour limit never fires. `Session.FallbackUnreachable` proves this for
  every request sequence in clock order.
- When the test does fail, it writes 7. The docstring at line 58 names 6 as
  the value that turns the heater off.
- It writes 6 whenever the reading has reached the set point, even when the
  set point is already 6.
- It never restamps the set point.
- It sends `CurrentTemp` as the constant 49, not the reading.

## Model

| member | source | states |
|---|---|---|
| Codec.CalcHash | thermobit/server.py:95-113 | The accumulation loop (seed 181, the 4 big-endian bytes of each int or bool, `ord` of each character of each string, `SetTemp` through `str()` first, `% 256` at the end) returns exactly (seed + sum of the fields' contributions) mod 256. It raises OverflowError exactly when some field other than `SetTemp` holds an integer outside 0 .. 2^32-1. |
| Codec.Checksum | thermobit/server.py:112-113 | The checksum is always a byte in 0..255. It exists exactly when every field can be encoded. |
| Codec.ChecksumOrderFree | thermobit/server.py:101-112 | Two heater records that are permutations of each other have the same checksum. |
| Codec.SumByPermutation | thermobit/server.py:101-112 | A sum of per-element contributions, such as the one the checksum loop accumulates, does not change under any reordering of the elements. |
| Codec.SetTempSummedAsText | thermobit/server.py:102-103 | A `SetTemp` integer of any value contributes the character-code sum of its decimal text and never raises. |
| Codec.SetTempTenIs97 | thermobit/server.py:102-106 | `SetTemp` 10 contributes ord('1')+ord('0') = 97, while 10 under another key contributes 10. |
| Codec.BoolSummedAsInt | thermobit/server.py:104-106 | A bool under a key other than `SetTemp` is summed as the int 1 or 0, so `IsOn=False` adds nothing. |
| Codec.BigEndian4RoundTrip | thermobit/server.py:105 | The four bytes summed for an integer are its base-256 digits, most significant first. Decoding them gives the integer back. |
| PyText.HexByteShape | thermobit/server.py:264 | `"{:02x}".format(h).upper()` of a byte is exactly two characters from 0-9A-F. Read back as hexadecimal, they give the byte. |
| PyText.DecimalRoundTrip | thermobit/server.py:103 | `str()` of any int, including negative ones, is decimal text that `int()` reads back as that int. |
| PyText.TwoDigitsRoundTrip | thermobit/server.py:250 | An hour or minute is written as two zero-padded digits that read back as the value. |
| Directive.DayDigit | thermobit/server.py:246-249 | The weekday digit is '1'..'7' and is one more than `%w`, so Sunday is 1. |
| Directive.NowRoundTrip | thermobit/server.py:246-250 | The `Now` field is seven characters, `<day>,<HH>:<MM>`. The weekday, hour and minute read back from it unchanged. |
| Directive.Heater | thermobit/server.py:220-255 | The heater record has the nine keys in the order the controller parses them. `SetTemp`, `Now` and `UserNumber` hold the given values. `Id` is 0, `IsOn` False, `CurrentTemp` 49 whatever the reading, `ProgramNumber` 3, `Mode` "MAN" and `Prg` "19:00,45". |
| Directive.HeaterEncodable | thermobit/server.py:220-255 | Every field of the heater record except `UserNumber` can always be encoded. The checksum fails exactly when the user number is outside 0 .. 2^32-1. |
| Directive.Sign | thermobit/server.py:264-266 | The reply exists exactly when every field of the record can be encoded. Its checksum text is two upper-case hexadecimal digits that read back as (181 + sum of contributions) mod 256. |
| Directive.Updated | thermobit/server.py:218-269 | A poll always applies the set-point decision to the state, even when the handler then raises. A reply exists exactly when `UserNumber` is present and fits in four bytes. The reply has the nine keys in wire order. It carries the post-state set point as `SetTemp`, the wall-clock `Now` text, and the requested user number as `UserNumber`. The other six fields hold the constants of the code, `CurrentTemp` 49 among them. Its checksum is two upper-case hexadecimal digits that read back as (181 + sum of contributions) mod 256. |
| Directive.DirectiveCarriesSetPoint | thermobit/server.py:233-244 | For any valid user number, the directive's `SetTemp` field equals the set point the server holds after the poll. |
| Directive.DocumentedExampleIsE4 | thermobit/server.py:152-215 | The heater record logged in the route's docstring (SetTemp 10, Now "7,19:45", UserNumber 25564181, Mode PRG, Prg "19:00,10") has checksum 0xE4, written "E4", as logged. |
| Control.Init | thermobit/server.py:19-23 | A fresh state has reading 0, set point 6 (heater off) and is stamped with the start-up time. |
| Control.StartsIdle | thermobit/server.py:19-23 | Until a report arrives, every poll at or after start-up asks for 6 and leaves the start-up state unchanged. |
| Control.Decide | thermobit/server.py:226-244 | At or above the set point, the new set point is 6 whatever it was before. Below it, the state is unchanged while the stamp is earlier than now + 1h; otherwise the set point becomes 7. In every branch the directive's SetTemp equals the post-state set point, and the reading and the stamp are unchanged. |
| Control.NoFallbackForPastStamp | thermobit/server.py:231-237 | With a stamp that is not in the future, the decision keeps the set point or sets 6, never 7. |
| Control.HourOldRequestStillHeats | thermobit/server.py:231-233 | Reading 5 and set point 20 still give directive 20 when the set point was written 90 minutes ago, as they do at 30 minutes. |
| Control.DecideIdempotent | thermobit/server.py:228-244 | Within the timeout window, deciding twice at the same time gives the same result as deciding once. |
| Control.IdleIsStable | thermobit/server.py:239-244 | When the set point is 6 and the reading is at least 6, a poll changes nothing and asks for 6. |
| Control.Override | thermobit/server.py:66-74 | A non-negative request becomes the set point, stamped with `now`, and gets a `temp_set:` reply. A negative request, or a missing one (default -1), leaves the state unchanged and gets no reply. The reading never changes. |
| Control.OverrideReplyNamesValue | thermobit/server.py:74 | The text after `temp_set:` in the reply reads back as the requested value. |
| Control.MainPage | thermobit/server.py:80-92 | The main page makes the same state change as `set_temp`. It redirects exactly when the request is non-negative; otherwise it renders the unchanged reading, set point, request and stamp. |
| Control.Ingest | thermobit/server.py:135 | A report makes its `CurTemp` (0 when missing) the reading. The set point and stamp are unchanged. |
| Control.LatestReportWins | thermobit/server.py:135 | Of two reports, only the second leaves a trace in the state. |
| Session.SetPointOrigin | thermobit/server.py:228-244 | From the start-up state (reading 0, set point 6, stamped at start-up), along any sequence of reports, overrides and polls in clock order, the stamp is never later than the last request. The set point is always 6 or a value someone requested. |
| Session.FallbackUnreachable | thermobit/server.py:231-237 | Along any such sequence, the set point is never the timeout value 7 unless 7 was requested. |

## Left out

- Flask routing, `request`/`jsonify`, JSON serialisation and key ordering, `redirect` and `render_template`: transport and presentation. The heater record is a sequence, so its order is explicit.
- The temperature log file written by `espcreate`, and `create_temp_graph` with pandas/plotly: file I/O and plotting.
- `debug` and `print` logging.
- The `/get_temp` route: it only reads `current_temp` and `set_temp`.
- The stub routes `/test`, `/`, `/api/*` and `/version/IsAlive`: they contain no logic.
- `datetime.now()` and `strftime`: the clock (microseconds) and the wall-clock weekday, hour and minute are parameters. The decision and the `Now` field read the clock separately in the code; the model takes them as separate parameters without relating them.
- Parsing of request arguments with `int(...)`: `set_temp` and `UserNumber` arrive already parsed, as optional integers. The ValueError raised for non-numeric text is not modelled.
- `CurTemp` values that are not integers (JSON null, strings): the reading is modelled as an optional integer.
- `str.upper()` is modelled on ASCII letters only, which covers the hexadecimal digits it is applied to.
- Concurrent requests on the global state: requests are applied one at a time.
- Session.FallbackUnreachable: assumes the clock never steps back. `datetime.now()` is naive local time, so a manual or NTP step back of more than an hour can put the stamp more than an hour in the future, and the next poll below the set point then writes 7. `Control.Decide` still models that branch.
- A daily-timer scheduler and a persistent state store with sign-encoded timestamps: `thermobit/server.py` contains neither, so they are not part of this model.
