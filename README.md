# EmailScheduler delivery scheduler, modelled in Dafny

EmailScheduler reads a CSV list of recipients (address, display name, …).
It schedules one personalised Outlook e-mail per distinct address for
deferred delivery and writes a log of what it scheduled. This project models
the rate-limited scheduling loop of `write_emails` and proves what that loop
guarantees.

The scheduler enumerates delivery slots in a fixed order: day offset 1, 2, …,
then hour 7 … 18, then minute 0, 10, …, 50. That is 72 slots per day. Each
slot takes the next packet of `mailsPerTenMin` (q) consecutive rows.
Every row of the packet gets that slot's time. A row whose address was
already sent is skipped, but it still counts as examined and keeps its place
in the packet. The run ends when every row has been examined or the day loop
runs out; preview mode ends at the first message it composes.

The project has four modules:

- `Slots` (`slots.dfy`): slot arithmetic. It contains the closed form `SlotOf(k)` of
  the k-th slot of the day/hour/minute loops, its inverse `IndexOf`, the
  chronological order, and the day bound `math.ceil(L / (q * 72))`.
- `Delivery` (`delivery.dfy`): the outcome of a run as a pure function,
  `Expected(rows, q, preview)`. Row i is examined in slot `SlotOf(i / q)`. It is
  sent iff no earlier row has its address. The run stops at the first row that
  raises or that preview mode displays. The lemmas prove that no address is
  sent twice and that delivery times never decrease. They also prove that no
  slot holds more than q messages, that preview mode sends nothing, that a
  clean run examines every row, and a few concrete scenarios.
- `Scheduler` (`scheduler.dfy`): the imperative model of the loop, with the
  `mails` and `packets` counters and the seen-address list `outputlist`. It
  appends each sent message to `sent` and its log row to `logRows`. Each of
  the four nested loops is a `while` loop in a method of its own: the day
  loop in `Schedule`, the hour loop in `ScheduleDay`, the minute loop in
  `ScheduleHour`, and the packet loop `for rec in packet` in `SendPacket`.
  Each method hands its counters and lists on to the next. All four are
  proved against `Expected`.
- `Cli` (`cli.dfy`): the `--previewMode` string mapping of `main`.

The model follows the code where the code differs from the program's stated
intent:

- A quota of 0 is not rejected before the run. It raises `ZeroDivisionError`
  in the day bound, after the log file has been opened and the CSV read. The
  model gives `Failed(ZeroQuota)`.
- A negative quota is not an error. The day range is empty, so the run
  completes and sends nothing.
- A duplicate row counts toward `mails` and uses up its place in the packet.
- The number of days is fixed in advance by `math.ceil(L / (q * 72))`. It is
  not an open-ended enumeration. `Scheduler.Schedule` proves that this bound
  is always enough: its loop invariants, with the contract of `DayBound`,
  show that the rows run out no later than the last slot of the last day.
  `DayBoundSuffices` states the same count for the arithmetic alone.
- The sending window (07:00 to 18:50, every 10 minutes) is fixed in the code.
  It is not configurable.
- An empty CSV row raises `IndexError` at `rec[0]`. A one-field row whose
  address is new raises `IndexError` at `rec[1]`. A one-field duplicate is
  skipped without error. The model gives `Failed(MissingAddress(i))` and
  `Failed(MissingName(i))`. Messages already sent stay sent and logged.
- In preview mode a one-field first row raises before anything is displayed.

Delivery times are abstract: `Slot(day, hour, minute)`, where `day` is the
offset from the run date. A sent message is `Mail(address, name, slot)`,
where `name` is the value substituted into the body template. A log row is
`LogRow(address, deliveryTime)`.

## Model

| member | source | states |
|---|---|---|
| `Slots.SlotOf` | emailscheduler.py:71-74 | every slot the loops produce lies on a day offset of at least 1, in an hour in [7, 19), at a minute in {0, 10, …, 50} |
| `Slots.IndexOfSlotOf` | emailscheduler.py:71-74 | locating the k-th enumerated slot gives back k |
| `Slots.SlotOfIndexOf` | emailscheduler.py:71-74 | every valid (day, hour, minute) is the slot at its own position in the enumeration, so the closed form covers exactly the slots of the nested loops |
| `Slots.SlotLeIndex` | emailscheduler.py:71-73 | on valid slots, chronological order (day, then hour, then minute) coincides with enumeration order |
| `Slots.SlotOfMonotone` | emailscheduler.py:71-73 | slot k1 is no later than slot k2 exactly when k1 <= k2 |
| `Slots.SlotOfInjective` | emailscheduler.py:71-73 | distinct positions name distinct delivery times |
| `Slots.SlotsOfDay` | emailscheduler.py:72-73 | day offset d holds exactly the 72 positions 72(d-1) … 72d-1 |
| `Slots.CeilDiv` | emailscheduler.py:71 | the ceiling of n / d is the least c with n <= c * d |
| `Slots.CeilDivUnique` | emailscheduler.py:71 | any c with both ceiling properties equals `CeilDiv` |
| `Slots.DayBound` | emailscheduler.py:71 | the day count `math.ceil(L / (q * 72))` is the least number of days whose slots hold L rows at q per slot |
| `Slots.DayBoundSuffices` | emailscheduler.py:71-73 | the days of the bound provide at least ceil(L / q) slots, one per packet |
| `Delivery.FirstOccurrence` | emailscheduler.py:82-96 | row i has an address, and no earlier row has the same one, so `rec[0] not in outputlist` holds when it is examined |
| `Delivery.Emits` | emailscheduler.py:82-97 | row i is sent: a first occurrence whose name field exists |
| `Delivery.Stops` | emailscheduler.py:82-92 | examining row i ends the run: `rec[0]` raises on an empty row, or the row is a first occurrence and `rec[1]` raises or preview mode returns |
| `Delivery.MailAt` | emailscheduler.py:80-88 | the message composed for row i has the row's address and name, and a valid delivery time at position i / q of the enumeration, the slot whose packet holds row i |
| `Delivery.Emitted` | emailscheduler.py:80-97 | the messages sent for the first n rows: those of the rows that are sent, in input order, row i in slot i / q |
| `Delivery.Expected` | emailscheduler.py:69-103 | the outcome of a run. q = 0 is exactly the `ZeroQuota` failure. q < 0 examines and sends nothing. For q > 0 the examined rows are those before the first stopping row, and they are all examined. The sent messages are theirs. The run completes iff every row was examined. Otherwise the stopping row lies in the packet of slot `packets`, and its missing field or preview decides the status. A completed run uses ceil(L / q) slots. A preview sends nothing and shows the stopping row's message |
| `Delivery.FirstStop` | emailscheduler.py:76-92 | the run ends at the least row that has no address, or that is a new address with no name field or in preview mode; no earlier row stops it |
| `Delivery.EmittedMembers` | emailscheduler.py:80-98 | a message is sent for the first n rows iff it is row i's address and name in slot i / q, for some i < n whose address occurs in no earlier row |
| `Delivery.EmittedSlots` | emailscheduler.py:72-80 | every sent message lies in a valid slot no later than the slot of the last examined row |
| `Delivery.EmittedDistinct` | emailscheduler.py:82-96 | no address is sent twice |
| `Delivery.EmittedSorted` | emailscheduler.py:71-99 | delivery times are non-decreasing in emission order |
| `Delivery.EmittedQuota` | emailscheduler.py:80-99 | no slot holds more than q sent messages |
| `Delivery.EmittedCount` | emailscheduler.py:80-99 | the messages in a slot are at most the rows of that slot's packet examined so far |
| `Delivery.AddressesAt` | emailscheduler.py:96 | the seen list holds the address of each sent message, position by position |
| `Delivery.SeenIffEarlier` | emailscheduler.py:82-96 | an address is in the seen list exactly when it occurs in an earlier examined row |
| `Delivery.ScheduleGuarantees` | emailscheduler.py:69-103 | for q > 0 the sent messages are exactly those of first occurrences among the examined rows, with distinct addresses, in chronological order, at most q per slot, all within the sending hours |
| `Delivery.PreviewSendsNothing` | emailscheduler.py:90-92 | preview mode sends nothing (so, by the log contract of `Scheduler.Schedule`, it logs nothing); with a first row that has an address and a name it displays exactly that row's message, at 07:00 on the day after the run date |
| `Delivery.CompletesAllRows` | emailscheduler.py:71-103 | a run completes iff it examined every row; without preview and with well-formed rows it examines all rows, duplicates included, sends the first occurrences and consumes ceil(L / q) slots |
| `Delivery.EmptyInput` | emailscheduler.py:71-79 | an empty input schedules nothing and consumes no slot, unless the quota is 0 |
| `Delivery.DuplicateKeepsPlace` | emailscheduler.py:80-98 | with q = 2 and rows a, a, b the second a is dropped and b is still delivered in the second slot, 07:10 |
| `Delivery.DuplicateDropped` | emailscheduler.py:82-98 | rows a, b, a with q = 35 send exactly a and b, both at 07:00, and examine three rows |
| `Scheduler.Slice` | emailscheduler.py:80 | Python slicing with non-negative bounds keeps the positions lo <= i < hi that exist, in order |
| `Scheduler.ExpectedDone` | emailscheduler.py:76-103 | a run that examined every row in `packets` slots completes with `packets` equal to ceil(L / q) |
| `Scheduler.ExpectedStop` | emailscheduler.py:80-92 | a run that stops at row k stops in packet k / q, with the error or preview that row k causes |
| `Scheduler.ScanDuplicate` | emailscheduler.py:82-98 | a row whose address was already sent changes nothing but the count of examined rows |
| `Scheduler.ScanSend` | emailscheduler.py:82-98 | a new address outside preview mode is sent in its row's slot, added to the seen list and logged as (address, delivery time) |
| `Scheduler.ScanNew` | emailscheduler.py:82 | an address absent from the seen list is a first occurrence among the rows |
| `Scheduler.PacketBounds` | emailscheduler.py:80 | when rows remain, the slice `[q * packets : (packets + 1) * q]` starts at row `mails`, and the counters after it count exactly one more packet |
| `Scheduler.SendPacket` | emailscheduler.py:80-98 | examining one packet either examines all its rows, keeping the sent messages, seen list and log in step with the rows examined, or returns the run's final outcome |
| `Scheduler.ScheduleHour` | emailscheduler.py:73-99 | the minute loop of one hour either uses all six slots, keeping the sent messages, seen list, log and counters in step, or returns the run's final outcome |
| `Scheduler.ScheduleDay` | emailscheduler.py:72-99 | the hour loop of one day either uses all 72 slots, keeping the sent messages, seen list, log and counters in step, or returns the run's final outcome |
| `Scheduler.Schedule` | emailscheduler.py:69-103 | the day loop over `range(1, ceil(L / (q * 72)) + 1)`, with the zero-quota error, produces exactly the outcome `Expected` describes, and the log rows are the sent messages as (address, delivery time), in order |
| `Cli.PreviewFlag` | emailscheduler.py:116-119 | preview mode is off exactly when the argument is the string "False" |
| `Cli.PreviewByDefault` | emailscheduler.py:112-119 | the default "True", and spellings such as "false" or "", leave preview mode on |

## Left out

- Outlook COM automation (`Dispatch`, `CreateItem`, `Display`, `Send`,
  emailscheduler.py:57, 83-94) is a foreign transport. Sending is modelled as
  appending a `Mail` to `sent`, and displaying as the `Previewed` status.
  Transport failures are not modelled.
- The subject line and the HTML body are not recorded in `Mail`. Rendering
  `body.format(name=…)` (emailscheduler.py:87) is left out. A `Mail` records
  the substituted name, so errors that `str.format` could raise on other
  placeholders are not modelled.
- File I/O and the library parsers are left out. This covers `parse_yaml`,
  `parse_csv`, opening and closing `scheduled_mails.CSV`, and the csv writer
  (emailscheduler.py:18-42, 59-62, 97, 101). The CSV rows are a parameter,
  and writing a log row is appending to `logRows`. The file handle that stays
  open after a preview or an exception is a resource issue and is not modelled.
- The wall clock (`datetime.datetime.now()`, emailscheduler.py:65-67) and
  calendar arithmetic are left out. Day offsets stay abstract. The
  `ValueError` raised by the `datetime` constructor when `currentDay + day`
  passes the end of the month (emailscheduler.py:74) is not modelled.
- `math.ceil(len(inputlist) / (q * 72))` uses floating-point division. The
  model uses the exact integer ceiling. The two differ only for inputs too
  large for a double to hold exactly.
- Logging is left out: the logging setup (emailscheduler.py:14-16) and the
  `logging.info("Excecuted successfully")` calls on both completion paths
  (emailscheduler.py:78, 102). A completed run is the `Completed` status.
- `argparse` and the `int()` parsing of `--mailsPerTenMin`
  (emailscheduler.py:106-115) are left out. The quota is an integer
  parameter.
