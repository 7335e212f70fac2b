/**
 * The delivery plan that `write_emails` produces, stated without its loops
 * and counters: input row i is examined in slot i / q, and it is sent iff
 * its address does not occur in an earlier row. The run stops at the first
 * row that raises an error or, in preview mode, at the first message it
 * composes.
 */
module Delivery {
  import opened Slots

  type Address = string

  /** A CSV row: its fields, address first and display name second; extra fields are ignored. */
  type Row = seq<string>

  /** A composed message: recipient, the name substituted into the body, deferred-delivery time. */
  datatype Mail = Mail(address: Address, name: string, slot: Slot)

  /** A row of the scheduling log. */
  datatype LogRow = LogRow(address: Address, deliveryTime: Slot)

  /** The exceptions the scheduling loop can raise. */
  datatype Error =
    | ZeroQuota              // ZeroDivisionError: quota 0 in the day bound
    | MissingAddress(row: nat) // IndexError: `rec[0]` of an empty row
    | MissingName(row: nat)    // IndexError: `rec[1]` of a one-field row being sent

  /** How a run ends: it returns normally, returns after displaying one preview, or raises. */
  datatype Status = Completed | Previewed(mail: Mail) | Failed(error: Error)

  /** What a run leaves behind: its status, the messages sent, and the final counters. */
  datatype Run = Run(status: Status, sent: seq<Mail>, mails: nat, packets: nat)

  /** Row i has an address and no earlier row has the same address. */
  predicate FirstOccurrence(rows: seq<Row>, i: nat)
    requires i < |rows|
  {
    |rows[i]| > 0 && forall j :: 0 <= j < i && |rows[j]| > 0 ==> rows[j][0] != rows[i][0]
  }

  /** Row i produces a message: a first occurrence that has a name field. */
  predicate Emits(rows: seq<Row>, i: nat)
    requires i < |rows|
  {
    |rows[i]| >= 2 && FirstOccurrence(rows, i)
  }

  /** Examining row i ends the run: it has no address, or it would be composed but has no name or preview is on. */
  predicate Stops(rows: seq<Row>, preview: bool, i: nat)
    requires i < |rows|
  {
    |rows[i]| == 0 || (FirstOccurrence(rows, i) && (|rows[i]| < 2 || preview))
  }

  /** The message composed for row i: its address and name, in slot i / q. */
  function MailAt(rows: seq<Row>, q: nat, i: nat): (m: Mail)
    requires q > 0 && i < |rows| && |rows[i]| >= 2
    ensures m.address == rows[i][0] && m.name == rows[i][1]
    ensures ValidSlot(m.slot) && IndexOf(m.slot) == i / q
  {
    IndexOfSlotOf(i / q);
    Mail(rows[i][0], rows[i][1], SlotOf(i / q))
  }

  /** The messages emitted for the first n rows, in input order. */
  function Emitted(rows: seq<Row>, q: nat, n: nat): seq<Mail>
    requires q > 0 && n <= |rows|
  {
    if n == 0 then []
    else Emitted(rows, q, n - 1) + (if Emits(rows, n - 1) then [MailAt(rows, q, n - 1)] else [])
  }

  /** The first row at or after `from` that ends the run, or |rows| if there is none. */
  function FirstStop(rows: seq<Row>, preview: bool, from: nat): (k: nat)
    requires from <= |rows|
    ensures from <= k <= |rows|
    ensures k < |rows| ==> Stops(rows, preview, k)
    ensures forall i :: from <= i < k ==> !Stops(rows, preview, i)
    decreases |rows| - from
  {
    if from == |rows| || Stops(rows, preview, from) then from
    else FirstStop(rows, preview, from + 1)
  }

  /**
   * The outcome of a run on `rows` with quota `q`. A zero quota raises before
   * any row is examined, and it is the only cause of `ZeroQuota`; a negative
   * quota gives an empty day range. Otherwise the rows before the first
   * stopping row are examined, every one of them counts toward `mails`, the
   * sent messages are theirs, and `packets` is the number of slots whose
   * packets were consumed; a stopping row lies in the packet of the slot
   * after them, and decides the error or the preview the run ends with.
   */
  function Expected(rows: seq<Row>, q: int, preview: bool): (r: Run)
    ensures r.status == Failed(ZeroQuota) <==> q == 0
    ensures q <= 0 ==> r.sent == [] && r.mails == 0 && r.packets == 0
    ensures q > 0 ==> r.mails <= |rows| && r.sent == Emitted(rows, q, r.mails)
    ensures q > 0 ==> forall i :: 0 <= i < r.mails ==> !Stops(rows, preview, i)
    ensures q > 0 ==> (r.status.Completed? <==> r.mails == |rows|)
    ensures q > 0 && r.mails < |rows| ==>
      Stops(rows, preview, r.mails) && r.packets * q <= r.mails < r.packets * q + q
    ensures q > 0 && r.mails == |rows| ==>
      r.mails <= r.packets * q && (r.packets == 0 || (r.packets - 1) * q < r.mails)
    ensures r.status.Failed? && q != 0 ==>
      && r.mails < |rows| && |rows[r.mails]| < 2
      && r.status.error == (if |rows[r.mails]| == 0 then MissingAddress(r.mails) else MissingName(r.mails))
    ensures r.status.Previewed? ==>
      && preview && q > 0 && r.sent == [] && r.mails < |rows| && |rows[r.mails]| >= 2
      && r.status.mail == MailAt(rows, q, r.mails)
  {
    if q == 0 then Run(Failed(ZeroQuota), [], 0, 0)
    else if q < 0 then Run(Completed, [], 0, 0)
    else
      var k := FirstStop(rows, preview, 0);
      DivBetween(k, q, k / q);
      assert preview && |rows| > 0 ==> Stops(rows, preview, 0);
      var status :=
        if k == |rows| then Completed
        else if |rows[k]| == 0 then Failed(MissingAddress(k))
        else if |rows[k]| < 2 then Failed(MissingName(k))
        else Previewed(MailAt(rows, q, k));
      Run(status, Emitted(rows, q, k), k, if k == |rows| then CeilDiv(k, q) else k / q)
  }

  /** The addresses of a sequence of messages, in order. */
  function Addresses(sent: seq<Mail>): (r: seq<Address>)
    ensures |r| == |sent|
  {
    if sent == [] then [] else Addresses(sent[..|sent| - 1]) + [sent[|sent| - 1].address]
  }

  /** `Addresses` lists the address of every message, position by position. */
  lemma {:induction false} AddressesAt(sent: seq<Mail>, t: nat)
    requires t < |sent|
    ensures Addresses(sent)[t] == sent[t].address
  {
    if t < |sent| - 1 {
      AddressesAt(sent[..|sent| - 1], t);
    }
  }

  /** The number of messages in `sent` whose delivery time is `s`. */
  function Count(sent: seq<Mail>, s: Slot): nat {
    if sent == [] then 0
    else Count(sent[..|sent| - 1], s) + (if sent[|sent| - 1].slot == s then 1 else 0)
  }

  predicate DistinctAddresses(sent: seq<Mail>) {
    forall a, b :: 0 <= a < b < |sent| ==> sent[a].address != sent[b].address
  }

  predicate NonDecreasingSlots(sent: seq<Mail>) {
    forall a, b :: 0 <= a < b < |sent| ==> SlotLe(sent[a].slot, sent[b].slot)
  }

  /** A message is emitted for the first n rows iff it is the message of a first occurrence among them. */
  lemma {:induction false} EmittedMembers(rows: seq<Row>, q: nat, n: nat, m: Mail)
    requires q > 0 && n <= |rows|
    ensures m in Emitted(rows, q, n) <==> exists i :: 0 <= i < n && Emits(rows, i) && m == MailAt(rows, q, i)
  {
    if n > 0 {
      EmittedMembers(rows, q, n - 1, m);
      var tail := if Emits(rows, n - 1) then [MailAt(rows, q, n - 1)] else [];
      assert Emitted(rows, q, n) == Emitted(rows, q, n - 1) + tail;
      if exists i :: 0 <= i < n && Emits(rows, i) && m == MailAt(rows, q, i) {
        var i :| 0 <= i < n && Emits(rows, i) && m == MailAt(rows, q, i);
        if i < n - 1 {
          assert m in Emitted(rows, q, n - 1);
        } else {
          assert m in tail;
        }
      }
    }
  }

  /** Each emitted message lies in a valid slot no later than the slot of row n - 1. */
  lemma EmittedSlots(rows: seq<Row>, q: nat, n: nat, m: Mail)
    requires q > 0 && 0 < n <= |rows|
    requires m in Emitted(rows, q, n)
    ensures ValidSlot(m.slot) && IndexOf(m.slot) <= (n - 1) / q
  {
    EmittedMembers(rows, q, n, m);
    var i :| 0 <= i < n && Emits(rows, i) && m == MailAt(rows, q, i);
    IndexOfSlotOf(i / q);
    DivMonotone(i, n - 1, q);
  }

  lemma DivMonotone(x: nat, y: nat, d: nat)
    requires d > 0 && x <= y
    ensures x / d <= y / d
  {
    if x / d > y / d {
      MulLe(y / d + 1, x / d, d);
    }
  }

  /** No address is sent twice. */
  lemma {:induction false} EmittedDistinct(rows: seq<Row>, q: nat, n: nat)
    requires q > 0 && n <= |rows|
    ensures DistinctAddresses(Emitted(rows, q, n))
  {
    if n > 0 {
      EmittedDistinct(rows, q, n - 1);
      var prev := Emitted(rows, q, n - 1);
      if Emits(rows, n - 1) {
        var sent := Emitted(rows, q, n);
        assert sent == prev + [MailAt(rows, q, n - 1)];
        forall a | 0 <= a < |prev|
          ensures prev[a].address != rows[n - 1][0]
        {
          EmittedMembers(rows, q, n - 1, prev[a]);
        }
      }
    }
  }

  /** Delivery times never decrease in emission order. */
  lemma {:induction false} EmittedSorted(rows: seq<Row>, q: nat, n: nat)
    requires q > 0 && n <= |rows|
    ensures NonDecreasingSlots(Emitted(rows, q, n))
  {
    if n > 0 {
      EmittedSorted(rows, q, n - 1);
      var prev := Emitted(rows, q, n - 1);
      if Emits(rows, n - 1) {
        var last := MailAt(rows, q, n - 1);
        assert Emitted(rows, q, n) == prev + [last];
        forall a | 0 <= a < |prev|
          ensures SlotLe(prev[a].slot, last.slot)
        {
          EmittedMembers(rows, q, n - 1, prev[a]);
          var i :| 0 <= i < n - 1 && Emits(rows, i) && prev[a] == MailAt(rows, q, i);
          DivMonotone(i, n - 1, q);
          SlotOfMonotone(i / q, (n - 1) / q);
        }
      }
    }
  }

  /** How many of the first n rows fall in the packet that starts at row `start`: at most q. */
  function PacketFill(n: nat, start: nat, q: nat): (f: nat)
    ensures f <= q
  {
    if n <= start then 0 else if n - start >= q then q else n - start
  }

  /** Examining one more row never shrinks a packet, and adds one to the packet that row belongs to. */
  lemma PacketFillStep(n: nat, start: nat, q: nat)
    requires q > 0
    ensures PacketFill(n, start, q) <= PacketFill(n + 1, start, q)
    ensures start <= n < start + q ==> PacketFill(n + 1, start, q) == PacketFill(n, start, q) + 1
  {
  }

  /** Row r falls in the packet of its own slot. */
  lemma RowFillsItsPacket(r: nat, q: nat)
    requires q > 0
    ensures var s := SlotOf(r / q);
      PacketFill(r + 1, IndexOf(s) * q, q) == PacketFill(r, IndexOf(s) * q, q) + 1
  {
    var k := r / q;
    IndexOfSlotOf(k);
    var start := k * q;
    assert r == start + r % q;
    PacketFillStep(r, start, q);
  }

  lemma CountSnoc(prev: seq<Mail>, m: Mail, s: Slot)
    ensures Count(prev + [m], s) == Count(prev, s) + (if m.slot == s then 1 else 0)
  {
    assert (prev + [m])[..|prev|] == prev;
  }

  lemma {:induction false} EmittedCount(rows: seq<Row>, q: nat, n: nat, s: Slot)
    requires q > 0 && n <= |rows|
    ensures Count(Emitted(rows, q, n), s) <= (if ValidSlot(s) then PacketFill(n, IndexOf(s) * q, q) else 0)
  {
    if n > 0 {
      EmittedCount(rows, q, n - 1, s);
      var prev := Emitted(rows, q, n - 1);
      if ValidSlot(s) {
        PacketFillStep(n - 1, IndexOf(s) * q, q);
      }
      if Emits(rows, n - 1) {
        var last := MailAt(rows, q, n - 1);
        assert Emitted(rows, q, n) == prev + [last];
        CountSnoc(prev, last, s);
        if last.slot == s {
          RowFillsItsPacket(n - 1, q);
        } else {
          assert Count(Emitted(rows, q, n), s) == Count(prev, s);
        }
      } else {
        assert Emitted(rows, q, n) == prev;
      }
    }
  }

  /** No slot holds more than q emitted messages. */
  lemma EmittedQuota(rows: seq<Row>, q: nat, n: nat, s: Slot)
    requires q > 0 && n <= |rows|
    ensures Count(Emitted(rows, q, n), s) <= q
  {
    EmittedCount(rows, q, n, s);
  }

  /**
   * For rows that do not stop the run, an address is among those already
   * sent iff it occurs in an earlier row (the seen list `outputlist`).
   */
  lemma {:induction false} SeenIffEarlier(rows: seq<Row>, q: nat, preview: bool, n: nat, x: Address)
    requires q > 0 && n <= |rows|
    requires forall i :: 0 <= i < n ==> !Stops(rows, preview, i)
    ensures x in Addresses(Emitted(rows, q, n)) <==> exists j :: 0 <= j < n && |rows[j]| > 0 && rows[j][0] == x
  {
    if n > 0 {
      SeenIffEarlier(rows, q, preview, n - 1, x);
      var prev := Emitted(rows, q, n - 1);
      assert !Stops(rows, preview, n - 1);
      if Emits(rows, n - 1) {
        var sent := prev + [MailAt(rows, q, n - 1)];
        assert Emitted(rows, q, n) == sent;
        assert sent[..|sent| - 1] == prev;
        assert Addresses(sent) == Addresses(prev) + [rows[n - 1][0]];
      } else {
        assert Emitted(rows, q, n) == prev;
        assert !FirstOccurrence(rows, n - 1);
        var j0 :| 0 <= j0 < n - 1 && |rows[j0]| > 0 && rows[j0][0] == rows[n - 1][0];
        if rows[n - 1][0] == x {
          assert x in Addresses(prev);
        }
      }
    }
  }

  /**
   * What every run with a positive quota sends: exactly the messages of the
   * first occurrences among the examined rows, each in the slot of its row,
   * no address twice, in chronological order, at most q per slot, all
   * within the sending hours.
   */
  lemma ScheduleGuarantees(rows: seq<Row>, q: int, preview: bool)
    requires q > 0
    ensures var r := Expected(rows, q, preview);
      && r.mails <= |rows|
      && (forall m :: m in r.sent <==> exists i :: 0 <= i < r.mails && Emits(rows, i) && m == MailAt(rows, q, i))
      && DistinctAddresses(r.sent)
      && NonDecreasingSlots(r.sent)
      && (forall s :: Count(r.sent, s) <= q)
      && (forall m :: m in r.sent ==> ValidSlot(m.slot))
  {
    var k := FirstStop(rows, preview, 0);
    forall m
      ensures m in Emitted(rows, q, k) <==> exists i :: 0 <= i < k && Emits(rows, i) && m == MailAt(rows, q, i)
    {
      EmittedMembers(rows, q, k, m);
    }
    EmittedDistinct(rows, q, k);
    EmittedSorted(rows, q, k);
    forall s
      ensures Count(Emitted(rows, q, k), s) <= q
    {
      EmittedQuota(rows, q, k, s);
    }
    forall m | m in Emitted(rows, q, k)
      ensures ValidSlot(m.slot)
    {
      EmittedSlots(rows, q, k, m);
    }
  }

  /**
   * Preview mode sends nothing; with a positive quota and a first row that
   * has an address and a name, it displays exactly that row's message, in
   * the first slot of the day after the run date.
   */
  lemma PreviewSendsNothing(rows: seq<Row>, q: int)
    ensures Expected(rows, q, true).sent == []
    ensures q > 0 && |rows| > 0 && |rows[0]| >= 2 ==>
      Expected(rows, q, true).status == Previewed(Mail(rows[0][0], rows[0][1], Slot(1, FirstHour, 0)))
  {
    if q > 0 && |rows| > 0 {
      var k := FirstStop(rows, true, 0);
      assert Stops(rows, true, 0);
      assert k == 0;
    }
  }

  /**
   * Without preview and with every row carrying an address and a name, a
   * run with a positive quota examines every row, duplicates included, and
   * consumes ceil(|rows| / q) slots; a run that completes has examined
   * every row.
   */
  lemma CompletesAllRows(rows: seq<Row>, q: int, preview: bool)
    requires q > 0
    ensures Expected(rows, q, preview).status == Completed <==> Expected(rows, q, preview).mails == |rows|
    ensures !preview && (forall i :: 0 <= i < |rows| ==> |rows[i]| >= 2) ==>
      Expected(rows, q, preview) == Run(Completed, Emitted(rows, q, |rows|), |rows|, CeilDiv(|rows|, q))
  {
    if !preview && (forall i :: 0 <= i < |rows| ==> |rows[i]| >= 2) {
      var k := FirstStop(rows, preview, 0);
      assert k == |rows|;
    }
  }

  /** An empty input schedules nothing and consumes no slot; a zero quota raises first. */
  lemma EmptyInput(q: int, preview: bool)
    ensures Expected([], q, preview) ==
      if q == 0 then Run(Failed(ZeroQuota), [], 0, 0) else Run(Completed, [], 0, 0)
  {
  }

  /**
   * A duplicate keeps its place in the packet: with a quota of 2 and the rows
   * a, a, b, the second a is dropped yet b is still delivered in the second
   * slot (07:10), not beside the first a.
   */
  lemma DuplicateKeepsPlace()
    ensures Expected([["a@x", "A1"], ["a@x", "A2"], ["b@x", "B"]], 2, false)
         == Run(Completed, [Mail("a@x", "A1", Slot(1, 7, 0)), Mail("b@x", "B", Slot(1, 7, 10))], 3, 2)
  {
    var rows: seq<Row> := [["a@x", "A1"], ["a@x", "A2"], ["b@x", "B"]];
    assert "a@x" != "b@x";
    assert FirstOccurrence(rows, 0) && !FirstOccurrence(rows, 1) && FirstOccurrence(rows, 2);
    CompletesAllRows(rows, 2, false);
  }

  /**
   * The duplicate law: the rows a, b, a with the default quota of 35 send two
   * messages, for a and b, in the first slot; the second a is dropped.
   */
  lemma DuplicateDropped()
    ensures Expected([["a@x", "N1"], ["b@x", "N2"], ["a@x", "N3"]], 35, false)
         == Run(Completed, [Mail("a@x", "N1", Slot(1, 7, 0)), Mail("b@x", "N2", Slot(1, 7, 0))], 3, 1)
  {
    var rows: seq<Row> := [["a@x", "N1"], ["b@x", "N2"], ["a@x", "N3"]];
    assert "a@x" != "b@x";
    assert FirstOccurrence(rows, 0) && FirstOccurrence(rows, 1) && !FirstOccurrence(rows, 2);
    CompletesAllRows(rows, 35, false);
  }
}
