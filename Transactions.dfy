/** Transaction.java: one ledger entry with five mutable fields, and the
    column layout of its toString. */
module Transactions {
  import opened Text
  import opened Calendar
  import opened Formats

  /** The value of a transaction; the amount is held in cents, positive for
      a deposit and negative for a payment. */
  datatype Record = Record(date: Date, time: Time, description: string, vendor: string, amount: int)

  /** A record whose date and time print: valid calendar values in the
      years "yyyy" can represent. */
  predicate Displayable(r: Record)
  {
    ValidDate(r.date) && InYearRange(r.date) && ValidTime(r.time)
  }

  class Transaction {
    var date: Date
    var time: Time
    var description: string
    var vendor: string
    var amount: int

    constructor (date: Date, time: Time, description: string, vendor: string, amount: int)
      ensures this.date == date && this.time == time && this.description == description
      ensures this.vendor == vendor && this.amount == amount
    {
      this.date := date;
      this.time := time;
      this.description := description;
      this.vendor := vendor;
      this.amount := amount;
    }

    /** The five fields as one value. */
    function Value(): Record
      reads this
    {
      Record(date, time, description, vendor, amount)
    }

    method GetDate() returns (d: Date)
      ensures d == date
    {
      d := date;
    }

    method SetDate(d: Date)
      modifies this
      ensures date == d && Value() == old(Value()).(date := d)
    {
      date := d;
    }

    method GetTime() returns (t: Time)
      ensures t == time
    {
      t := time;
    }

    method SetTime(t: Time)
      modifies this
      ensures time == t && Value() == old(Value()).(time := t)
    {
      time := t;
    }

    method GetDescription() returns (s: string)
      ensures s == description
    {
      s := description;
    }

    method SetDescription(s: string)
      modifies this
      ensures description == s && Value() == old(Value()).(description := s)
    {
      description := s;
    }

    method GetVendor() returns (s: string)
      ensures s == vendor
    {
      s := vendor;
    }

    method SetVendor(s: string)
      modifies this
      ensures vendor == s && Value() == old(Value()).(vendor := s)
    {
      vendor := s;
    }

    method GetAmount() returns (a: int)
      ensures a == amount
    {
      a := amount;
    }

    method SetAmount(a: int)
      modifies this
      ensures amount == a && Value() == old(Value()).(amount := a)
    {
      amount := a;
    }

    /** toString: the display line of the current field values. */
    function ToString(): (s: string)
      reads this
      requires Displayable(Value())
    {
      DisplayLine(Value())
    }
  }

  // ------------------------------------------------------------ display line

  /** "%-30s" of the truncated description. */
  function DescriptionCell(s: string): (c: string)
    ensures |c| == 30
    ensures |s| <= 30 ==> c == s + Spaces(30 - |s|)
    ensures |s| > 30 ==> c == s[..27] + "..."
  {
    PadCell(s, 30)
  }

  /** "%-20s" of the truncated vendor. */
  function VendorCell(s: string): (c: string)
    ensures |c| == 20
    ensures |s| <= 20 ==> c == s + Spaces(20 - |s|)
    ensures |s| > 20 ==> c == s[..17] + "..."
  {
    PadCell(s, 20)
  }

  function Spaces(n: nat): (r: string)
    ensures |r| == n && forall i :: 0 <= i < n ==> r[i] == ' '
  {
    seq(n, _ => ' ')
  }

  /** A column of width w: the text truncated to w, then padded with spaces. */
  function PadCell(s: string, w: nat): (c: string)
    requires w >= 3
    ensures |c| == w
    ensures |s| <= w ==> c == s + Spaces(w - |s|)
    ensures |s| > w ==> c == s[..w - 3] + "..."
  {
    var t := Truncate(s, w);
    var c := PadRight(t, w);
    assert c == t + Spaces(w - |t|) by {
      assert c[..|t|] == t;
      assert c[|t|..] == Spaces(w - |t|);
    }
    c
  }

  /** String.format("%s|%s|%-30s|%-20s|%.2f", ...) of the record. */
  function DisplayLine(r: Record): (s: string)
    requires Displayable(r)
  {
    FormatDate(r.date) + "|" + FormatTime(r.time) + "|" + DescriptionCell(r.description)
      + "|" + VendorCell(r.vendor) + "|" + FormatAmount(r.amount)
  }

  /** The columns of a display line: after the date (ten characters up to
      year 9999) come the time, the 30-wide description, the 20-wide vendor
      and the amount, each after a '|'. */
  lemma DisplayColumns(r: Record)
    requires Displayable(r)
    ensures var s, k := DisplayLine(r), |FormatDate(r.date)|;
      |s| >= k + 66 && s[..k] == FormatDate(r.date)
      && s[k] == '|' && s[k + 1..k + 9] == FormatTime(r.time)
      && s[k + 9] == '|' && s[k + 10..k + 40] == DescriptionCell(r.description)
      && s[k + 40] == '|' && s[k + 41..k + 61] == VendorCell(r.vendor)
      && s[k + 61] == '|' && s[k + 62..] == FormatAmount(r.amount)
      && (r.date.year <= 9999 ==> k == 10)
  {
    RowColumns(FormatDate(r.date), FormatTime(r.time), DescriptionCell(r.description),
      VendorCell(r.vendor), FormatAmount(r.amount));
  }

  lemma RowColumns(d: string, t: string, dc: string, vc: string, a: string)
    requires |t| == 8 && |dc| == 30 && |vc| == 20
    ensures var s, k := d + "|" + t + "|" + dc + "|" + vc + "|" + a, |d|;
      |s| == k + 62 + |a| && s[..k] == d
      && s[k] == '|' && s[k + 1..k + 9] == t
      && s[k + 9] == '|' && s[k + 10..k + 40] == dc
      && s[k + 40] == '|' && s[k + 41..k + 61] == vc
      && s[k + 61] == '|' && s[k + 62..] == a
  {
    var s, k := d + "|" + t + "|" + dc + "|" + vc + "|" + a, |d|;
    assert s[..k] == d;
    assert s[k + 1..k + 9] == t;
    assert s[k + 10..k + 40] == dc;
    assert s[k + 41..k + 61] == vc;
    assert s[k + 62..] == a;
  }
}
