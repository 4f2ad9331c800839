/** FinancialTracker.java: the transaction list and the transactions file,
    and the operations that load, add, sort and show transactions. The file
    is its sequence of lines; the console answers are a sequence of lines
    too, and the clock reading is a parameter. */
module Tracker {
  import opened Text
  import opened Calendar
  import opened Formats
  import opened Transactions
  import opened Codec
  import opened Queries
  import opened Input

  lemma PrefixSnoc<T>(s: seq<T>, i: nat)
    requires i < |s|
    ensures s[..i + 1] == s[..i] + [s[i]]
  {
  }

  /** The lines show prints for the records, in order. */
  function Lines(rs: seq<Record>, show: Record --> string): (out: seq<string>)
    requires forall i :: 0 <= i < |rs| ==> show.requires(rs[i])
    ensures |out| == |rs| && forall i :: 0 <= i < |rs| ==> out[i] == show(rs[i])
  {
    if rs == [] then [] else [show(rs[0])] + Lines(rs[1..], show)
  }

  lemma {:induction false} LinesAppend(a: seq<Record>, b: seq<Record>, show: Record --> string)
    requires forall i :: 0 <= i < |a| ==> show.requires(a[i])
    requires forall i :: 0 <= i < |b| ==> show.requires(b[i])
    ensures forall i :: 0 <= i < |a + b| ==> show.requires((a + b)[i])
    ensures Lines(a + b, show) == Lines(a, show) + Lines(b, show)
    decreases |a|
  {
    if a == [] {
      assert a + b == b;
    } else {
      assert (a + b)[0] == a[0] && (a + b)[1..] == a[1..] + b;
      LinesAppend(a[1..], b, show);
    }
  }

  /** The lines show prints for the records the criterion selects. */
  function SelectLines(c: Criterion, rs: seq<Record>, show: Record --> string): (out: seq<string>)
    requires forall i :: 0 <= i < |rs| ==> show.requires(rs[i])
    ensures |out| == |Select(c, rs)|
  {
    SelectMembers(c, rs);
    assert forall i :: 0 <= i < |Select(c, rs)| ==> Select(c, rs)[i] in rs;
    Lines(Select(c, rs), show)
  }

  /** One more record adds its line exactly when it is selected. */
  lemma SelectLinesSnoc(c: Criterion, rs: seq<Record>, r: Record, show: Record --> string)
    requires forall i :: 0 <= i < |rs| ==> show.requires(rs[i])
    requires show.requires(r)
    ensures forall i :: 0 <= i < |rs + [r]| ==> show.requires((rs + [r])[i])
    ensures SelectLines(c, rs + [r], show) == SelectLines(c, rs, show) + (if Matches(c, r) then [show(r)] else [])
  {
    SelectAppend(c, rs, [r]);
    var a, b := Select(c, rs), Select(c, [r]);
    SelectOne(c, r);
    SelectMembers(c, rs);
    assert forall i :: 0 <= i < |a| ==> a[i] in rs;
    LinesAppend(a, b, show);
    assert Lines(b, show) == if Matches(c, r) then [show(r)] else [];
  }

  lemma SelectOne(c: Criterion, r: Record)
    ensures Select(c, [r]) == if Matches(c, r) then [r] else []
  {
    assert [r][1..] == [];
  }

  /** The lines a view prints: the toString of each transaction the
      criterion selects, in list order. */
  function Rows(c: Criterion, rs: seq<Record>): (out: seq<string>)
    requires forall i :: 0 <= i < |rs| ==> Displayable(rs[i])
    ensures |out| == |Select(c, rs)|
  {
    SelectLines(c, rs, DisplayLine)
  }

  /** The for-each loop of displayLedger: show applied to every record, in
      list order. */
  method ShowAll(rs: seq<Record>, show: Record --> string) returns (rows: seq<string>)
    requires forall i :: 0 <= i < |rs| ==> show.requires(rs[i])
    ensures rows == Lines(rs, show)
  {
    rows := [];
    var i := 0;
    while i < |rs|
      invariant i <= |rs|
      invariant rows == Lines(rs[..i], show)
    {
      LinesAppend(rs[..i], [rs[i]], show);
      PrefixSnoc(rs, i);
      rows := rows + [show(rs[i])];
      i := i + 1;
    }
    assert rs[..i] == rs;
  }

  /** The for-each loop of the views: show applied to each selected
      record, in list order. */
  method ShowSelected(c: Criterion, rs: seq<Record>, show: Record --> string) returns (rows: seq<string>)
    requires forall i :: 0 <= i < |rs| ==> show.requires(rs[i])
    ensures rows == SelectLines(c, rs, show)
  {
    rows := [];
    var i := 0;
    while i < |rs|
      invariant i <= |rs|
      invariant rows == SelectLines(c, rs[..i], show)
    {
      var r := rs[i];
      SelectLinesSnoc(c, rs[..i], r, show);
      PrefixSnoc(rs, i);
      if Matches(c, r) {
        rows := rows + [show(r)];
      }
      i := i + 1;
    }
    assert rs[..i] == rs;
  }

  /** The for-each loop of the vendor report, which also sets found when a
      record matches. */
  method ShowVendor(vendor: string, rs: seq<Record>, show: Record --> string) returns (rows: seq<string>, found: bool)
    requires forall i :: 0 <= i < |rs| ==> show.requires(rs[i])
    ensures rows == SelectLines(VendorIs(vendor), rs, show)
    ensures found <==> exists i :: 0 <= i < |rs| && EqualsIgnoreCase(rs[i].vendor, vendor)
  {
    rows, found := [], false;
    var i := 0;
    while i < |rs|
      invariant i <= |rs|
      invariant rows == SelectLines(VendorIs(vendor), rs[..i], show)
      invariant found <==> exists j :: 0 <= j < i && EqualsIgnoreCase(rs[j].vendor, vendor)
    {
      var r := rs[i];
      SelectLinesSnoc(VendorIs(vendor), rs[..i], r, show);
      PrefixSnoc(rs, i);
      if EqualsIgnoreCase(r.vendor, vendor) {
        rows := rows + [show(r)];
        found := true;
      }
      i := i + 1;
    }
    assert rs[..i] == rs;
  }

  class FinancialTracker {
    /** The transaction list, in memory. */
    var transactions: seq<Record>
    /** The lines of transactions.csv. */
    var file: seq<string>

    /** Every transaction in the list prints. */
    ghost predicate Valid()
      reads this
    {
      forall i :: 0 <= i < |transactions| ==> Displayable(transactions[i])
    }

    /** The empty list at start-up, over the file's lines (a missing file
        is created empty). */
    constructor (lines: seq<string>)
      ensures transactions == [] && file == lines && Valid()
    {
      transactions := [];
      file := lines;
    }

    /** loadTransactions: decodes the file line by line and appends each
        record; the first line that does not decode ends the reading, and
        the records before it stay in the list. */
    method LoadTransactions()
      modifies this
      requires Valid()
      ensures Valid() && file == old(file)
      ensures transactions == old(transactions) + Load(file)
    {
      ReadFile(Decode);
    }

    /** The reading loop of loadTransactions, with decode the reading of
        one line. */
    method ReadFile(decode: string -> Option<Record>)
      modifies this
      requires Valid() && forall e :: decode(e).Some? ==> Displayable(decode(e).value)
      ensures Valid() && file == old(file)
      ensures transactions == old(transactions) + LoadPrefix(file, decode)
    {
      var lines := file;
      ghost var loaded := LoadPrefix(lines, decode);
      var i := 0;
      while i < |lines|
        invariant i <= |loaded|
        invariant transactions == old(transactions) + loaded[..i]
        invariant Valid() && file == lines
      {
        var d := decode(lines[i]);
        if d.None? {
          break;
        }
        assert i < |loaded| && d == Some(loaded[i]);
        Add(d.value);
        PrefixSnoc(loaded, i);
        i := i + 1;
      }
      assert i == |loaded| && loaded[..i] == loaded;
    }

    /** The isDone loop shared by addDeposit and addPayment, with rd the
        readers of the answers: each round asks for a date and time, a
        description, a vendor and an amount, and the first positive amount
        appends one record, negated for a payment. The record is added to
        the list before the file is written; when the write fails
        (writeOk false) the list keeps it. */
    method AddEntry(input: seq<string>, rd: Readers, payment: bool, writeOk: bool)
      modifies this
      requires Valid() && ValidReaders(rd)
      ensures Valid()
      ensures match Appended(AddFlow(input, rd, payment, 0))
        case None => transactions == old(transactions) && file == old(file)
        case Some(r) =>
          Displayable(r) && transactions == old(transactions) + [r] && file == old(file) + (if writeOk then [Encode(r)] else [])
    {
      ghost var goal := Appended(AddFlow(input, rd, payment, 0));
      var rest, amount := input, 0;
      while rest != []
        invariant amount <= 0
        invariant goal == Appended(AddFlow(rest, rd, payment, amount))
        invariant transactions == old(transactions) && file == old(file)
        decreases |rest|
      {
        var dateTime, k := PromptUserDateTime(rest, rd.dateTime);
        if dateTime.None? || |rest| < k + 2 {
          return;
        }
        var description := rd.text(rest[k]);
        var vendor := rd.text(rest[k + 1]);
        ghost var carried := amount;
        if |rest| > k + 2 {
          var parsed := rd.amount(rest[k + 2]);
          if parsed.Some? {
            amount := parsed.value;
          }
        }
        assert amount == RoundAmount(rest, k, rd, carried);
        AddFlowRound(rest, rd, payment, carried, dateTime.value, k);
        if amount > 0 {
          var r := Record(dateTime.value.date, dateTime.value.time, description, vendor,
                          if payment then -amount else amount);
          assert goal == Some(r);
          assert rd.dateTime(rest[k - 1]) == dateTime;
          assert Displayable(r);
          Store(r, writeOk);
          return;
        }
        if |rest| == k + 2 {
          return;
        }
        rest := rest[k + 3..];
      }
    }

    /** transactions.add: appends one record at the end of the list. */
    method Add(r: Record)
      modifies this
      requires Valid() && Displayable(r)
      ensures Valid()
      ensures transactions == old(transactions) + [r] && file == old(file)
    {
      transactions := transactions + [r];
    }

    /** transactions.add, then the line appended to the file when the
        write succeeds. */
    method Store(r: Record, writeOk: bool)
      modifies this
      requires Valid() && Displayable(r)
      ensures Valid()
      ensures transactions == old(transactions) + [r] && file == old(file) + (if writeOk then [Encode(r)] else [])
    {
      Add(r);
      if writeOk {
        file := file + [Encode(r)];
      }
    }

    /** addDeposit at clock reading now. */
    method AddDeposit(input: seq<string>, now: DateTime, writeOk: bool)
      modifies this
      requires Valid() && ValidDateTime(now) && InYearRange(now.date)
      ensures Valid()
      ensures match Appended(AddFlow(input, Prompts(now), false, 0))
        case None => transactions == old(transactions) && file == old(file)
        case Some(r) =>
          Displayable(r) && transactions == old(transactions) + [r] && file == old(file) + (if writeOk then [Encode(r)] else [])
    {
      PromptsValid(now);
      AddEntry(input, Prompts(now), false, writeOk);
    }

    /** addPayment at clock reading now. */
    method AddPayment(input: seq<string>, now: DateTime, writeOk: bool)
      modifies this
      requires Valid() && ValidDateTime(now) && InYearRange(now.date)
      ensures Valid()
      ensures match Appended(AddFlow(input, Prompts(now), true, 0))
        case None => transactions == old(transactions) && file == old(file)
        case Some(r) =>
          Displayable(r) && transactions == old(transactions) + [r] && file == old(file) + (if writeOk then [Encode(r)] else [])
    {
      PromptsValid(now);
      AddEntry(input, Prompts(now), true, writeOk);
    }

    /** Opening the ledger: List.sort with the reversed (date, time)
        comparator, newest first and stable. */
    method SortLedger()
      modifies this
      requires Valid()
      ensures Valid() && file == old(file)
      ensures transactions == SortNewestFirst(old(transactions))
    {
      var sorted := SortNewestFirst(transactions);
      forall i | 0 <= i < |sorted| ensures Displayable(sorted[i]) {
        assert sorted[i] in multiset(transactions);
      }
      transactions := sorted;
    }

    /** One pass over the list printing the selected transactions. */
    method Show(c: Criterion) returns (rows: seq<string>)
      requires Valid()
      ensures rows == Rows(c, transactions)
    {
      rows := ShowSelected(c, transactions, DisplayLine);
    }

    /** displayLedger: every transaction, in list order. */
    method DisplayLedger() returns (rows: seq<string>)
      requires Valid()
      ensures rows == Lines(transactions, DisplayLine)
    {
      rows := ShowAll(transactions, DisplayLine);
    }

    /** displayDeposits: the transactions with a positive amount. */
    method DisplayDeposits() returns (rows: seq<string>)
      requires Valid()
      ensures rows == Rows(Deposits, transactions)
    {
      rows := Show(Deposits);
    }

    /** displayPayments: the transactions with a negative amount. */
    method DisplayPayments() returns (rows: seq<string>)
      requires Valid()
      ensures rows == Rows(Payments, transactions)
    {
      rows := Show(Payments);
    }

    /** filterTransactionsByDate: the transactions dated from start to end,
        both included. */
    method FilterTransactionsByDate(start: Date, end: Date) returns (rows: seq<string>)
      requires Valid()
      ensures rows == Rows(DateRange(start, end), transactions)
    {
      rows := Show(DateRange(start, end));
    }

    /** filterTransactionsByVendor: the transactions whose vendor equals the
        query ignoring case; found reports whether any matched. */
    method FilterTransactionsByVendor(vendor: string) returns (rows: seq<string>, found: bool)
      requires Valid()
      ensures rows == Rows(VendorIs(vendor), transactions)
      ensures found <==> exists i :: 0 <= i < |transactions| && EqualsIgnoreCase(transactions[i].vendor, vendor)
    {
      rows, found := ShowVendor(vendor, transactions, DisplayLine);
    }
  }
}
