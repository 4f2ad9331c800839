/** The line format of transactions.csv: the line the add flows append, and
    the reading of each line in loadTransactions. */
module Codec {
  import opened Text
  import opened Calendar
  import opened Formats
  import opened Transactions

  /** String.format("%s|%s|%s|%s|%.2f", date, time, description, vendor, amount). */
  function Encode(r: Record): (line: string)
    requires Displayable(r)
  {
    Join([FormatDate(r.date), FormatTime(r.time), r.description, r.vendor, FormatAmount(r.amount)], '|')
  }

  /** One line of the file: split at '|', then parts[0] a date, parts[1] a
      time, parts[2] and parts[3] the description and vendor as they stand,
      parts[4] the amount. Any exception (a missing part, text that does not
      parse) gives None; parts after the fifth are ignored. */
  function Decode(line: string): (r: Option<Record>)
    ensures r.Some? ==> Displayable(r.value) && r.value.time.nano == 0
  {
    var parts := Split(line, '|');
    if |parts| < 5 then None
    else
      match (ParseDate(parts[0]), ParseTime(parts[1]), ParseAmount(parts[4]))
      case (Some(d), Some(t), Some(a)) => Some(Record(d, t, parts[2], parts[3], a))
      case _ => None
  }

  /** What a record looks like after a trip through the file: the time has
      no nanoseconds. */
  function Stored(r: Record): Record
  {
    r.(time := r.time.(nano := 0))
  }

  /** A description and vendor free of '|' survive the file. */
  predicate Storable(r: Record)
  {
    Displayable(r) && '|' !in r.description && '|' !in r.vendor
  }

  /** A written line splits into exactly its five fields. */
  lemma EncodeParts(r: Record)
    requires Storable(r)
    ensures Split(Encode(r), '|') == [FormatDate(r.date), FormatTime(r.time), r.description, r.vendor, FormatAmount(r.amount)]
  {
    SplitJoin([FormatDate(r.date), FormatTime(r.time), r.description, r.vendor, FormatAmount(r.amount)], '|');
  }

  /** Reading back a written line gives the record, without nanoseconds. */
  lemma DecodeEncode(r: Record)
    requires Storable(r)
    ensures Decode(Encode(r)) == Some(Stored(r))
  {
    EncodeParts(r);
    ParseFormatDate(r.date);
    ParseFormatTime(r.time);
    ParseFormatAmount(r.amount);
  }

  /** A '|' inside a description shifts the fields: the text after it is
      read as the vendor and the vendor text as the amount. */
  lemma DecodeEncodeWithSeparator(r: Record, x: string, y: string)
    requires Displayable(r) && r.description == x + "|" + y
    requires '|' !in x && '|' !in y && '|' !in r.vendor
    ensures Decode(Encode(r)) == match ParseAmount(r.vendor)
      case None => None
      case Some(a) => Some(Record(r.date, r.time.(nano := 0), x, y, a))
  {
    var d, t, a := FormatDate(r.date), FormatTime(r.time), FormatAmount(r.amount);
    var six := [d, t, x, y, r.vendor, a];
    JoinSeparatorInThird(d, t, x, y, r.vendor, a);
    SplitJoin(six, '|');
    ParseFormatDate(r.date);
    ParseFormatTime(r.time);
  }

  lemma JoinSeparatorInThird(d: string, t: string, x: string, y: string, v: string, a: string)
    ensures Join([d, t, x + "|" + y, v, a], '|') == Join([d, t, x, y, v, a], '|')
  {
    var c := x + "|" + y;
    var five, six := [d, t, c, v, a], [d, t, x, y, v, a];
    assert five[1..] == [t, c, v, a] && five[1..][1..] == [c, v, a];
    assert six[1..] == [t, x, y, v, a] && six[1..][1..] == [x, y, v, a];
    assert [c, v, a][1..] == [v, a] && [x, y, v, a][1..] == [y, v, a] && [y, v, a][1..] == [v, a];
    assert Join([c, v, a], '|') == c + ['|'] + Join([v, a], '|');
    assert Join([y, v, a], '|') == y + ['|'] + Join([v, a], '|');
    assert Join([x, y, v, a], '|') == x + ['|'] + Join([y, v, a], '|');
  }

  // ------------------------------------------------------------ the whole file

  /** loadTransactions: the records of the lines up to the first one that
      does not decode; the lines after it are not read. The decoder is a
      parameter so that the reasoning about the reading order stays apart
      from the line format; the tracker reads with Decode. */
  function LoadPrefix(lines: seq<string>, decode: string -> Option<Record>): (rs: seq<Record>)
    ensures |rs| <= |lines|
    ensures forall i :: 0 <= i < |rs| ==> decode(lines[i]) == Some(rs[i])
    ensures |rs| < |lines| ==> decode(lines[|rs|]) == None
  {
    if lines == [] then []
    else
      match decode(lines[0])
      case None => []
      case Some(r) => [r] + LoadPrefix(lines[1..], decode)
  }

  /** The records loadTransactions adds for the lines of the file. */
  function Load(lines: seq<string>): (rs: seq<Record>)
    ensures forall i :: 0 <= i < |rs| ==> Displayable(rs[i]) && rs[i].time.nano == 0
  {
    LoadPrefix(lines, Decode)
  }

  /** The decoded prefix is the only sequence with its two properties: each
      line before it decodes to its record, and the line after it does not. */
  lemma {:induction false} LoadPrefixUnique(lines: seq<string>, decode: string -> Option<Record>, rs: seq<Record>)
    requires |rs| <= |lines| && forall i :: 0 <= i < |rs| ==> decode(lines[i]) == Some(rs[i])
    requires |rs| < |lines| ==> decode(lines[|rs|]) == None
    ensures LoadPrefix(lines, decode) == rs
    decreases |lines|
  {
    if lines != [] && rs != [] {
      assert decode(lines[0]) == Some(rs[0]);
      LoadPrefixUnique(lines[1..], decode, rs[1..]);
    }
  }

  /** Lines that all decode load as a block: reading continues into what
      follows them. */
  lemma LoadAppend(a: seq<string>, b: seq<string>, decode: string -> Option<Record>)
    requires forall i :: 0 <= i < |a| ==> decode(a[i]).Some?
    ensures LoadPrefix(a + b, decode) == LoadPrefix(a, decode) + LoadPrefix(b, decode)
  {
    var ra, rb := LoadPrefix(a, decode), LoadPrefix(b, decode);
    assert |ra| == |a|;
    var lines, rs := a + b, ra + rb;
    forall i | 0 <= i < |rs| ensures decode(lines[i]) == Some(rs[i]) {
      if i < |a| {
        assert lines[i] == a[i] && rs[i] == ra[i];
      } else {
        assert lines[i] == b[i - |a|] && rs[i] == rb[i - |a|];
      }
    }
    if |rs| < |lines| {
      assert lines[|rs|] == b[|rb|];
    }
    LoadPrefixUnique(lines, decode, rs);
  }

  function StoredAll(rs: seq<Record>): (ss: seq<Record>)
    ensures |ss| == |rs| && forall i :: 0 <= i < |rs| ==> ss[i] == Stored(rs[i])
  {
    if rs == [] then [] else [Stored(rs[0])] + StoredAll(rs[1..])
  }

  /** A file written record by record loads back to the same records, in
      file order, without nanoseconds. */
  lemma LoadEncoded(rs: seq<Record>, lines: seq<string>)
    requires |lines| == |rs|
    requires forall i :: 0 <= i < |rs| ==> Storable(rs[i]) && lines[i] == Encode(rs[i])
    ensures Load(lines) == StoredAll(rs)
  {
    var ss := StoredAll(rs);
    forall i | 0 <= i < |rs| ensures Decode(lines[i]) == Some(ss[i]) {
      DecodeEncode(rs[i]);
    }
    LoadPrefixUnique(lines, Decode, ss);
  }

  /** A record appended to a file whose every line decodes is read back
      after them on the next load, without nanoseconds. */
  lemma LoadAfterWrite(lines: seq<string>, r: Record)
    requires forall i :: 0 <= i < |lines| ==> Decode(lines[i]).Some?
    requires Storable(r)
    ensures Load(lines + [Encode(r)]) == Load(lines) + [Stored(r)]
  {
    var line := Encode(r);
    LoadAppend(lines, [line], Decode);
    DecodeEncode(r);
    LoadPrefixOne(line, Decode, Stored(r));
  }

  lemma LoadPrefixOne(line: string, decode: string -> Option<Record>, v: Record)
    requires decode(line) == Some(v)
    ensures LoadPrefix([line], decode) == [v]
  {
    assert [line][1..] == [];
  }
}
