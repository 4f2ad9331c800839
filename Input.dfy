/** The input rules of the add flows: the date-time prompt with its retry
    loop, and the deposit and payment dialogues, over the lines the user
    types. The clock reading LocalDateTime.now() is the parameter now. */
module Input {
  import opened Text
  import opened Calendar
  import opened Formats
  import opened Transactions

  // ------------------------------------------------------------ date and time entry

  /** One answer to the date-time prompt: the trimmed text; empty (compared
      with equalsIgnoreCase) means now, otherwise parseDateTime, where null
      asks again. */
  function ReadDateTime(entry: string, now: DateTime): (r: Option<DateTime>)
  {
    var t := Trim(entry);
    if EqualsIgnoreCase(t, "") then Some(now) else ParseDateTime(t)
  }

  /** A blank answer gives now, any other the parse of its trimmed text. */
  lemma ReadDateTimeCases(entry: string, now: DateTime)
    ensures (forall i :: 0 <= i < |entry| ==> IsBlank(entry[i])) ==> ReadDateTime(entry, now) == Some(now)
    ensures !(forall i :: 0 <= i < |entry| ==> IsBlank(entry[i])) ==> ReadDateTime(entry, now) == ParseDateTime(Trim(entry))
  {
    EqualsIgnoreCaseIsLowerEquality(Trim(entry), "");
  }

  /** The text of a date and time is read as that date and time. */
  lemma ReadDateTimeOfText(dt: DateTime, now: DateTime)
    requires ValidDateTime(dt) && InYearRange(dt.date)
    ensures ReadDateTime(FormatDate(dt.date) + " " + FormatTime(dt.time), now) == Some(DateTime(dt.date, dt.time.(nano := 0)))
  {
    var s := FormatDate(dt.date) + " " + FormatTime(dt.time);
    assert s[0] == FormatDate(dt.date)[0] && (IsDigit(s[0]) || s[0] == '+');
    assert s[|s| - 1] == FormatTime(dt.time)[7];
    assert Trim(s) == s;
    EqualsIgnoreCaseIsLowerEquality(s, "");
    ParseFormatDateTime(dt);
  }

  /** The prompt's reading of one answer at clock reading now. */
  function Reader(now: DateTime): string -> Option<DateTime>
  {
    e => ReadDateTime(e, now)
  }

  /** promptUserDateTime over the answers given, with read the reading of
      one answer: the first answer read as a date and time, and how many
      answers were used; None when the answers run out first
      (Scanner.nextLine throws). */
  function FirstAnswer(entries: seq<string>, read: string -> Option<DateTime>): (r: Option<(DateTime, nat)>)
    ensures r.Some? ==> 1 <= r.value.1 <= |entries| && read(entries[r.value.1 - 1]) == Some(r.value.0)
  {
    if entries == [] then None
    else
      match read(entries[0])
      case Some(dt) => Some((dt, 1))
      case None => Later(FirstAnswer(entries[1..], read), 1)
  }

  /** An answer found n answers later. */
  function Later(f: Option<(DateTime, nat)>, n: nat): Option<(DateTime, nat)>
  {
    match f
    case None => None
    case Some((dt, k)) => Some((dt, k + n))
  }

  /** The answer found is the first one read, and none is found exactly when
      no answer reads. */
  lemma {:induction false} FirstAnswerIsFirst(entries: seq<string>, read: string -> Option<DateTime>)
    ensures var r := FirstAnswer(entries, read);
      r.Some? ==> forall i :: 0 <= i < r.value.1 - 1 ==> read(entries[i]).None?
    ensures FirstAnswer(entries, read).None? <==> forall i :: 0 <= i < |entries| ==> read(entries[i]).None?
  {
    if entries != [] && read(entries[0]).None? {
      FirstAnswerIsFirst(entries[1..], read);
      assert forall i :: 1 <= i < |entries| ==> entries[i] == entries[1..][i - 1];
    }
  }

  /** Skipping an answer that does not read. */
  lemma FirstAnswerSkip(entries: seq<string>, i: nat, read: string -> Option<DateTime>)
    requires i < |entries| && read(entries[i]).None?
    ensures FirstAnswer(entries[i..], read) == Later(FirstAnswer(entries[i + 1..], read), 1)
  {
    assert entries[i..][1..] == entries[i + 1..];
  }

  /** The prompt loop, with read the reading of one answer (Reader(now) in
      the program): asks until an answer reads as a date and time, and ends
      as its specification FirstAnswer does. */
  method PromptUserDateTime(entries: seq<string>, read: string -> Option<DateTime>) returns (r: Option<DateTime>, used: nat)
    ensures used <= |entries|
    ensures r.None? ==> used == |entries| && FirstAnswer(entries, read).None?
    ensures r.Some? ==> FirstAnswer(entries, read) == Some((r.value, used))
  {
    used := 0;
    while used < |entries|
      invariant used <= |entries|
      invariant FirstAnswer(entries, read) == Later(FirstAnswer(entries[used..], read), used)
    {
      var entry := entries[used];
      var dt := read(entry);
      if dt.Some? {
        assert entries[used..][0] == entry;
        return dt, used + 1;
      }
      FirstAnswerSkip(entries, used, read);
      used := used + 1;
    }
    return None, used;
  }

  // ------------------------------------------------------------ the add dialogues

  /** The end of an add dialogue: the record appended to the list, and the
      number of input lines read; or the dialogue ended by an exception. */
  datatype Outcome = Added(record: Record, used: nat) | Abandoned

  /** The record an outcome appends to the list, if any. */
  function Appended(o: Outcome): Option<Record>
  {
    if o.Added? then Some(o.record) else None
  }

  /** The readings of the answers of an add dialogue: the date-time prompt,
      the text answers and the amount. */
  datatype Readers = Readers(dateTime: string -> Option<DateTime>, text: string -> string, amount: string -> Option<int>)

  /** The program's readers at clock reading now: promptUserDateTime's
      reading of an answer, String.trim, and the parseDouble helper in cents. */
  function Prompts(now: DateTime): Readers
  {
    Readers(Reader(now), Trim, ParseAmount)
  }

  /** addDeposit (payment false) and addPayment (payment true) over the input
      lines, with the readers rd (Prompts(now) in the program). Each round
      reads a date and time, a description and a vendor (both trimmed) and an amount; carried is the
      amount variable, which a failed parse or a missing amount line leaves
      as it was (the inner catch). A positive amount is stored, negated for
      a payment; otherwise the round is repeated. Input running out anywhere
      else reaches the outer catch and abandons the dialogue. */
  function AddFlow(input: seq<string>, rd: Readers, payment: bool, carried: int): (o: Outcome)
    decreases |input|
  {
    match FirstAnswer(input, rd.dateTime)
    case None => Abandoned
    case Some((dt, k)) =>
      if |input| < k + 2 then Abandoned
      else
        var amount := RoundAmount(input, k, rd, carried);
        if amount > 0 then
          Added(Record(dt.date, dt.time, rd.text(input[k]), rd.text(input[k + 1]), if payment then -amount else amount),
                if |input| == k + 2 then k + 2 else k + 3)
        else if |input| == k + 2 then Abandoned
        else
          match AddFlow(input[k + 3..], rd, payment, amount)
          case Abandoned => Abandoned
          case Added(r, u) => Added(r, k + 3 + u)
  }

  /** The amount variable after the amount answer of a round whose
      date-time answer was line k: the amount read, or the value it had when
      the answer does not read or is missing. */
  function RoundAmount(input: seq<string>, k: nat, rd: Readers, carried: int): int
    requires k + 2 <= |input|
  {
    if |input| == k + 2 then carried
    else match rd.amount(input[k + 2]) case None => carried case Some(a) => a
  }

  /** One round of the dialogue: it stores the record, ends, or goes on with
      the lines after the round. */
  lemma AddFlowRound(input: seq<string>, rd: Readers, payment: bool, carried: int, dt: DateTime, k: nat)
    requires FirstAnswer(input, rd.dateTime) == Some((dt, k)) && k + 2 <= |input|
    ensures var a := RoundAmount(input, k, rd, carried);
      Appended(AddFlow(input, rd, payment, carried)) ==
        if a > 0 then Some(Record(dt.date, dt.time, rd.text(input[k]), rd.text(input[k + 1]), if payment then -a else a))
        else if |input| == k + 2 then None
        else Appended(AddFlow(input[k + 3..], rd, payment, a))
  {
  }

  /** The record an accepted round stores, when the dialogue has read n
      lines: its date and time are the reading of the answer four lines
      before the end, its description and vendor are the two text answers
      after it, and its amount is the positive amount read from the last
      line, negated for a payment. */
  ghost predicate StoredRound(input: seq<string>, rd: Readers, payment: bool, r: Record, n: nat)
  {
    4 <= n <= |input| && rd.amount(input[n - 1]).Some? && rd.amount(input[n - 1]).value > 0
    && r.amount == (if payment then -rd.amount(input[n - 1]).value else rd.amount(input[n - 1]).value)
    && r.description == rd.text(input[n - 3]) && r.vendor == rd.text(input[n - 2])
    && rd.dateTime(input[n - 4]) == Some(DateTime(r.date, r.time))
  }

  /** A round read after the first m lines. */
  lemma StoredRoundLater(input: seq<string>, m: nat, rd: Readers, payment: bool, r: Record, u: nat)
    requires m <= |input| && StoredRound(input[m..], rd, payment, r, u)
    ensures StoredRound(input, rd, payment, r, m + u)
  {
    var rest := input[m..];
    assert rest[u - 1] == input[m + u - 1] && rest[u - 2] == input[m + u - 2];
    assert rest[u - 3] == input[m + u - 3] && rest[u - 4] == input[m + u - 4];
  }

  /** An accepted dialogue stores the record of its last round. The amount
      variable starts at zero and a rejected round leaves it at most zero,
      so a failed parse or a missing amount line never stores an earlier
      round's amount. */
  lemma {:induction false} AddFlowAccepted(input: seq<string>, rd: Readers, payment: bool, carried: int)
    requires carried <= 0
    ensures var o := AddFlow(input, rd, payment, carried);
      o.Added? ==> StoredRound(input, rd, payment, o.record, o.used)
    decreases |input|
  {
    match FirstAnswer(input, rd.dateTime)
    case None =>
    case Some((dt, k)) =>
      if |input| <= k + 2 {
        assert AddFlow(input, rd, payment, carried) == Abandoned;
      } else if RoundAmount(input, k, rd, carried) > 0 {
        FirstRoundStored(input, rd, payment, carried, dt, k);
      } else {
        var amount := RoundAmount(input, k, rd, carried);
        AddFlowAccepted(input[k + 3..], rd, payment, amount);
        LaterRound(input, rd, payment, carried, dt, k);
        StoredOutcomeLater(input, k + 3, rd, payment, AddFlow(input[k + 3..], rd, payment, amount), AddFlow(input, rd, payment, carried));
      }
  }

  /** An accepted round: the first round whose amount is positive is the
      one stored, after exactly its k + 3 lines. */
  lemma FirstRoundStored(input: seq<string>, rd: Readers, payment: bool, carried: int, dt: DateTime, k: nat)
    requires FirstAnswer(input, rd.dateTime) == Some((dt, k)) && |input| > k + 2
    requires carried <= 0 < RoundAmount(input, k, rd, carried)
    ensures var a := RoundAmount(input, k, rd, carried);
      AddFlow(input, rd, payment, carried) ==
        Added(Record(dt.date, dt.time, rd.text(input[k]), rd.text(input[k + 1]), if payment then -a else a), k + 3)
    ensures var o := AddFlow(input, rd, payment, carried);
      o.Added? && StoredRound(input, rd, payment, o.record, o.used)
  {
  }

  /** A rejected round: the outcome is that of the lines after it, counted
      from the start. */
  lemma LaterRound(input: seq<string>, rd: Readers, payment: bool, carried: int, dt: DateTime, k: nat)
    requires FirstAnswer(input, rd.dateTime) == Some((dt, k)) && |input| > k + 2
    requires RoundAmount(input, k, rd, carried) <= 0
    ensures var o := AddFlow(input[k + 3..], rd, payment, RoundAmount(input, k, rd, carried));
      AddFlow(input, rd, payment, carried) == if o.Added? then Added(o.record, k + 3 + o.used) else Abandoned
  {
  }

  lemma StoredOutcomeLater(input: seq<string>, m: nat, rd: Readers, payment: bool, o: Outcome, x: Outcome)
    requires m <= |input| && x == if o.Added? then Added(o.record, m + o.used) else Abandoned
    requires o.Added? ==> StoredRound(input[m..], rd, payment, o.record, o.used)
    ensures x.Added? ==> StoredRound(input, rd, payment, x.record, x.used)
  {
    if o.Added? {
      StoredRoundLater(input, m, rd, payment, o.record, o.used);
    }
  }

  /** Hence a deposit is always stored positive and a payment negative. */
  lemma AddFlowSign(input: seq<string>, rd: Readers, payment: bool)
    ensures var o := AddFlow(input, rd, payment, 0);
      o.Added? ==> if payment then o.record.amount < 0 else o.record.amount > 0
  {
    AddFlowAccepted(input, rd, payment, 0);
  }

  /** A payment dialogue reads exactly like a deposit dialogue on the same
      input and stores the negation of the deposit it would have stored. */
  lemma {:induction false} PaymentIsNegatedDeposit(input: seq<string>, rd: Readers, carried: int)
    ensures AddFlow(input, rd, true, carried).Added? <==> AddFlow(input, rd, false, carried).Added?
    ensures AddFlow(input, rd, false, carried).Added? ==>
      var d, p := AddFlow(input, rd, false, carried), AddFlow(input, rd, true, carried);
      p.used == d.used && p.record == d.record.(amount := -d.record.amount)
    decreases |input|
  {
    match FirstAnswer(input, rd.dateTime)
    case None =>
    case Some((dt, k)) =>
      if |input| > k + 2 {
        var amount := RoundAmount(input, k, rd, carried);
        if amount <= 0 {
          PaymentIsNegatedDeposit(input[k + 3..], rd, amount);
        }
      }
  }

  /** Readers whose every date and time is valid and printable. */
  ghost predicate ValidReaders(rd: Readers)
  {
    forall e :: rd.dateTime(e).Some? ==> ValidDateTime(rd.dateTime(e).value) && InYearRange(rd.dateTime(e).value.date)
  }

  /** With a valid clock the prompts read only valid dates and times. */
  lemma PromptsValid(now: DateTime)
    requires ValidDateTime(now) && InYearRange(now.date)
    ensures ValidReaders(Prompts(now))
  {
  }

  /** With a valid reader every stored record is displayable. */
  lemma {:induction false} AddFlowDisplayable(input: seq<string>, rd: Readers, payment: bool, carried: int)
    requires ValidReaders(rd)
    ensures AddFlow(input, rd, payment, carried).Added? ==> Displayable(AddFlow(input, rd, payment, carried).record)
    decreases |input|
  {
    match FirstAnswer(input, rd.dateTime)
    case None =>
    case Some((dt, k)) =>
      if |input| > k + 2 {
        var amount := RoundAmount(input, k, rd, carried);
        if amount <= 0 {
          AddFlowDisplayable(input[k + 3..], rd, payment, amount);
        }
      }
  }
}
