/**
 * The scheduling loop of `write_emails`: three nested loops over day, hour
 * and minute, one packet of rows per slot, with the counters `mails` (rows
 * examined) and `packets` (slots consumed) and the list `outputlist` of
 * addresses already sent. Sending a message and writing its log row are
 * modelled as appending to `sent` and `logRows`.
 */
module Scheduler {
  import opened Slots
  import opened Delivery

  datatype Option<T> = None | Some(value: T)

  function Min(a: int, b: int): int {
    if a <= b then a else b
  }

  /** Python's slice `s[lo:hi]` for non-negative bounds: the elements at positions lo <= i < hi that exist. */
  function Slice<T>(s: seq<T>, lo: nat, hi: nat): (r: seq<T>)
    ensures |r| == if lo < hi && lo < |s| then Min(hi, |s|) - lo else 0
    ensures forall t :: 0 <= t < |r| ==> r[t] == s[lo + t]
  {
    if lo < hi && lo < |s| then s[lo..Min(hi, |s|)] else []
  }

  /**
   * The state after examining the first `mails` rows: none of them stopped
   * the run, `sent` holds their messages, `seen` their addresses, and the
   * log has one row per sent message.
   */
  ghost predicate Scanned(rows: seq<Row>, q: nat, preview: bool, mails: nat,
                          sent: seq<Mail>, seen: seq<Address>, logRows: seq<LogRow>)
    requires q > 0
  {
    && mails <= |rows|
    && (forall i :: 0 <= i < mails ==> !Stops(rows, preview, i))
    && sent == Emitted(rows, q, mails)
    && seen == Addresses(sent)
    && |logRows| == |sent|
    && (forall t :: 0 <= t < |sent| ==> logRows[t] == LogRow(sent[t].address, sent[t].slot))
  }

  /** The counters after `packets` slots: `mails` counts the rows of their packets, and the last of them had rows. */
  ghost predicate Consumed(n: nat, q: nat, packets: nat, mails: nat) {
    mails == Min(n, packets * q) && (packets == 0 || (packets - 1) * q < n)
  }

  /** A run that examined every row, in `packets` slots of q rows each, the last possibly partial. */
  lemma ExpectedDone(rows: seq<Row>, q: nat, preview: bool, packets: nat)
    requires q > 0
    requires forall i :: 0 <= i < |rows| ==> !Stops(rows, preview, i)
    requires |rows| <= packets * q
    requires packets == 0 || (packets - 1) * q < |rows|
    ensures Expected(rows, q, preview) == Run(Completed, Emitted(rows, q, |rows|), |rows|, packets)
  {
    CeilDivUnique(|rows|, q, packets);
  }

  /** A run that stops at row k, in the slot of packet number `packets`. */
  lemma ExpectedStop(rows: seq<Row>, q: nat, preview: bool, k: nat, packets: nat)
    requires q > 0 && k < |rows|
    requires Stops(rows, preview, k)
    requires forall i :: 0 <= i < k ==> !Stops(rows, preview, i)
    requires packets * q <= k < packets * q + q
    ensures Expected(rows, q, preview) ==
      Run(if |rows[k]| == 0 then Failed(MissingAddress(k))
          else if |rows[k]| < 2 then Failed(MissingName(k))
          else Previewed(Mail(rows[k][0], rows[k][1], SlotOf(packets))),
          Emitted(rows, q, k), k, packets)
  {
    DivBetween(k, q, packets);
    assert FirstStop(rows, preview, 0) == k;
  }

  /** Examining a duplicate row changes nothing but the count. */
  lemma ScanDuplicate(rows: seq<Row>, q: nat, preview: bool, mails: nat,
                      sent: seq<Mail>, seen: seq<Address>, logRows: seq<LogRow>)
    requires q > 0 && Scanned(rows, q, preview, mails, sent, seen, logRows)
    requires mails < |rows| && |rows[mails]| > 0 && rows[mails][0] in seen
    ensures Scanned(rows, q, preview, mails + 1, sent, seen, logRows)
  {
    SeenIffEarlier(rows, q, preview, mails, rows[mails][0]);
    assert !FirstOccurrence(rows, mails);
  }

  /** Examining a new address outside preview mode sends its message and logs it. */
  lemma ScanSend(rows: seq<Row>, q: nat, preview: bool, mails: nat,
                 sent: seq<Mail>, seen: seq<Address>, logRows: seq<LogRow>)
    requires q > 0 && Scanned(rows, q, preview, mails, sent, seen, logRows)
    requires mails < |rows| && |rows[mails]| >= 2 && rows[mails][0] !in seen && !preview
    ensures FirstOccurrence(rows, mails)
    ensures var m := MailAt(rows, q, mails);
      Scanned(rows, q, preview, mails + 1, sent + [m], seen + [m.address], logRows + [LogRow(m.address, m.slot)])
  {
    SeenIffEarlier(rows, q, preview, mails, rows[mails][0]);
    var m := MailAt(rows, q, mails);
    assert (sent + [m])[..|sent|] == sent;
  }

  /** A new address with a missing name field, or any new address in preview mode, ends the run. */
  lemma ScanNew(rows: seq<Row>, q: nat, preview: bool, mails: nat,
                sent: seq<Mail>, seen: seq<Address>, logRows: seq<LogRow>)
    requires q > 0 && Scanned(rows, q, preview, mails, sent, seen, logRows)
    requires mails < |rows| && |rows[mails]| > 0 && rows[mails][0] !in seen
    ensures FirstOccurrence(rows, mails)
  {
    SeenIffEarlier(rows, q, preview, mails, rows[mails][0]);
  }

  /** Before a packet that still has rows: the packet starts at row `mails` and fills up to q rows. */
  lemma PacketBounds(n: nat, q: nat, packets: nat, mails: nat)
    requires q > 0 && mails == Min(n, packets * q) && mails < n
    ensures q * packets == mails && (packets + 1) * q == mails + q
    ensures Min(n, (packets + 1) * q) == mails + Min(q, n - mails)
  {
  }

  /**
   * The body of `for rec in packet`: examines the rows of one packet, all
   * delivered at `deliveryTime`, the slot of packet number `packets`.
   * When the run returns from inside the packet, `stop` holds the status it
   * returns with; otherwise every row of the packet has been examined.
   */
  method SendPacket(rows: seq<Row>, q: nat, preview: bool, packet: seq<Row>, deliveryTime: Slot,
                    packets: nat, mails0: nat, sent0: seq<Mail>, seen0: seq<Address>, log0: seq<LogRow>)
    returns (stop: Option<Status>, mails: nat, sent: seq<Mail>, seen: seq<Address>, logRows: seq<LogRow>)
    requires q > 0 && Scanned(rows, q, preview, mails0, sent0, seen0, log0)
    requires mails0 == packets * q && mails0 < |rows|
    requires |packet| == Min(q, |rows| - mails0)
    requires forall t :: 0 <= t < |packet| ==> packet[t] == rows[mails0 + t]
    requires deliveryTime == SlotOf(packets)
    ensures |logRows| == |sent|
    ensures forall t :: 0 <= t < |sent| ==> logRows[t] == LogRow(sent[t].address, sent[t].slot)
    ensures stop.None? ==> mails == mails0 + |packet| && Scanned(rows, q, preview, mails, sent, seen, logRows)
    ensures stop.Some? ==> Run(stop.value, sent, mails, packets) == Expected(rows, q, preview)
  {
    stop, mails, sent, seen, logRows := None, mails0, sent0, seen0, log0;
    var j := 0;
    while j < |packet|
      invariant 0 <= j <= |packet|
      invariant mails == mails0 + j
      invariant Scanned(rows, q, preview, mails, sent, seen, logRows)
    {
      var rec := packet[j];
      assert rec == rows[mails];
      if |rec| == 0 {
        // rec[0] raises IndexError
        ExpectedStop(rows, q, preview, mails, packets);
        stop := Some(Failed(MissingAddress(mails)));
        return;
      }
      if rec[0] !in seen {
        ScanNew(rows, q, preview, mails, sent, seen, logRows);
        if |rec| < 2 {
          // rec[1] raises IndexError
          ExpectedStop(rows, q, preview, mails, packets);
          stop := Some(Failed(MissingName(mails)));
          return;
        }
        var newmail := Mail(rec[0], rec[1], deliveryTime);
        if preview {
          // the message is displayed and the run returns
          ExpectedStop(rows, q, preview, mails, packets);
          stop := Some(Previewed(newmail));
          return;
        }
        ScanSend(rows, q, preview, mails, sent, seen, logRows);
        DivBetween(mails, q, packets);
        sent := sent + [newmail];
        seen := seen + [rec[0]];
        logRows := logRows + [LogRow(rec[0], deliveryTime)];
      } else {
        ScanDuplicate(rows, q, preview, mails, sent, seen, logRows);
      }
      mails := mails + 1;
      j := j + 1;
    }
  }

  /**
   * One hour of the hour loop: the minutes 0, 10, ..., 50, one packet per
   * slot. When the run returns during the hour, `stop` holds the status it
   * returns with; otherwise the six slots of the hour have been used.
   */
  method ScheduleHour(rows: seq<Row>, q: nat, preview: bool, day: nat, hour: nat,
                      packets0: nat, mails0: nat, sent0: seq<Mail>, seen0: seq<Address>, log0: seq<LogRow>)
    returns (stop: Option<Status>, packets: nat, mails: nat, sent: seq<Mail>, seen: seq<Address>, logRows: seq<LogRow>)
    requires q > 0 && day >= 1 && FirstHour <= hour < EndHour
    requires packets0 == (day - 1) * SlotsPerDay + (hour - FirstHour) * SlotsPerHour
    requires Scanned(rows, q, preview, mails0, sent0, seen0, log0) && Consumed(|rows|, q, packets0, mails0)
    ensures |logRows| == |sent|
    ensures forall t :: 0 <= t < |sent| ==> logRows[t] == LogRow(sent[t].address, sent[t].slot)
    ensures stop.None? ==>
      && packets == packets0 + SlotsPerHour
      && Scanned(rows, q, preview, mails, sent, seen, logRows)
      && Consumed(|rows|, q, packets, mails)
    ensures stop.Some? ==> Run(stop.value, sent, mails, packets) == Expected(rows, q, preview)
  {
    stop, packets, mails, sent, seen, logRows := None, packets0, mails0, sent0, seen0, log0;
    var minute := 0;
    while minute <= 50
      invariant 0 <= minute <= 60 && minute % MinuteStep == 0 && stop.None?
      invariant packets == packets0 + minute / MinuteStep
      invariant Scanned(rows, q, preview, mails, sent, seen, logRows) && Consumed(|rows|, q, packets, mails)
    {
      var deliveryTime := Slot(day, hour, minute);
      SlotOfIndexOf(deliveryTime);
      if mails >= |rows| {
        ExpectedDone(rows, q, preview, packets);
        stop := Some(Completed);
        return;
      }
      PacketBounds(|rows|, q, packets, mails);
      var packet := Slice(rows, q * packets, (packets + 1) * q);
      stop, mails, sent, seen, logRows :=
        SendPacket(rows, q, preview, packet, deliveryTime, packets, mails, sent, seen, logRows);
      if stop.Some? {
        return;
      }
      packets := packets + 1;
      minute := minute + MinuteStep;
    }
  }

  /**
   * One day of the day loop: the hours 7 to 18. When the run returns during
   * the day, `stop` holds the status it returns with; otherwise the 72 slots
   * of the day have been used.
   */
  method ScheduleDay(rows: seq<Row>, q: nat, preview: bool, day: nat,
                     packets0: nat, mails0: nat, sent0: seq<Mail>, seen0: seq<Address>, log0: seq<LogRow>)
    returns (stop: Option<Status>, packets: nat, mails: nat, sent: seq<Mail>, seen: seq<Address>, logRows: seq<LogRow>)
    requires q > 0 && day >= 1 && packets0 == (day - 1) * SlotsPerDay
    requires Scanned(rows, q, preview, mails0, sent0, seen0, log0) && Consumed(|rows|, q, packets0, mails0)
    ensures |logRows| == |sent|
    ensures forall t :: 0 <= t < |sent| ==> logRows[t] == LogRow(sent[t].address, sent[t].slot)
    ensures stop.None? ==>
      && packets == day * SlotsPerDay
      && Scanned(rows, q, preview, mails, sent, seen, logRows)
      && Consumed(|rows|, q, packets, mails)
    ensures stop.Some? ==> Run(stop.value, sent, mails, packets) == Expected(rows, q, preview)
  {
    stop, packets, mails, sent, seen, logRows := None, packets0, mails0, sent0, seen0, log0;
    var hour := FirstHour;
    while hour < EndHour
      invariant FirstHour <= hour <= EndHour && stop.None?
      invariant packets == (day - 1) * SlotsPerDay + (hour - FirstHour) * SlotsPerHour
      invariant Scanned(rows, q, preview, mails, sent, seen, logRows) && Consumed(|rows|, q, packets, mails)
    {
      stop, packets, mails, sent, seen, logRows :=
        ScheduleHour(rows, q, preview, day, hour, packets, mails, sent, seen, logRows);
      if stop.Some? {
        return;
      }
      hour := hour + 1;
    }
  }

  /**
   * Schedules the rows with a quota of `q` rows per ten-minute slot. The
   * outcome is the one `Expected` describes, and the log rows are the sent
   * messages as (address, delivery time), in order.
   */
  method Schedule(rows: seq<Row>, q: int, preview: bool)
    returns (status: Status, sent: seq<Mail>, logRows: seq<LogRow>, mails: nat, packets: nat)
    ensures Run(status, sent, mails, packets) == Expected(rows, q, preview)
    ensures |logRows| == |sent|
    ensures forall t :: 0 <= t < |sent| ==> logRows[t] == LogRow(sent[t].address, sent[t].slot)
  {
    sent, logRows, mails, packets := [], [], 0, 0;
    var outputlist: seq<Address> := [];
    if q == 0 {
      // math.ceil(len(inputlist) / (0 * 72)) divides by zero
      status := Failed(ZeroQuota);
      return;
    }
    // for a negative quota the day range is empty
    var days := if q > 0 then DayBound(|rows|, q) else 0;
    var day := 1;
    while day <= days
      invariant 1 <= day <= days + 1
      invariant days > 0 ==> q > 0
      invariant q < 0 ==> days == 0 && mails == 0 && packets == 0 && sent == [] && logRows == []
      invariant packets == (day - 1) * SlotsPerDay
      invariant q > 0 ==> Scanned(rows, q, preview, mails, sent, outputlist, logRows)
      invariant q > 0 ==> Consumed(|rows|, q, packets, mails)
    {
      var stop;
      stop, packets, mails, sent, outputlist, logRows :=
        ScheduleDay(rows, q, preview, day, packets, mails, sent, outputlist, logRows);
      if stop.Some? {
        status := stop.value;
        return;
      }
      day := day + 1;
    }
    if q > 0 {
      ExpectedDone(rows, q, preview, packets);
    }
    status := Completed;
  }
}
