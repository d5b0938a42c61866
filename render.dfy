/**
 * The `allow.conf` text: `dbrow_to_str` renders one row as a fixed-column
 * nginx `allow` directive with a trailing comment, and the file is the rows'
 * lines joined by '\n' in ROWID order. Beside the renderer stands a reader
 * for the same format, which shows that no information is lost.
 */
module Render {
  import opened Wrappers
  import opened Text
  import opened Decimal
  import opened Calendar
  import opened Entries
  import opened Validation

  /** A broken-down UTC time, the part of `time.gmtime`'s result that `strftime` prints. */
  datatype DateTime = DateTime(date: Date, hour: int, minute: int, second: int)

  predicate ValidDateTime(dt: DateTime)
  {
    ValidDate(dt.date) && 0 <= dt.hour < 24 && 0 <= dt.minute < 60 && 0 <= dt.second < 60
  }

  /** Seconds since 1970-01-01 00:00:00 UTC of a broken-down time. */
  function TimestampOf(dt: DateTime): int
  {
    DaysFromCivil(dt.date) * 86400 + dt.hour * 3600 + dt.minute * 60 + dt.second
  }

  /** The first second whose year has five digits (10000-01-01 00:00:00 UTC). */
  const MaxTimestamp: int := 253402300800

  /** A second of the day splits into hour, minute and second. */
  lemma SplitSecondOfDay(secs: int)
    requires 0 <= secs < 86400
    ensures 0 <= secs / 3600 < 24 && 0 <= secs % 3600 / 60 < 60 && 0 <= secs % 60 < 60
    ensures secs / 3600 * 3600 + secs % 3600 / 60 * 60 + secs % 60 == secs
  {
  }

  /** Splitting a timestamp into days and seconds and putting it back together. */
  lemma SplitTimestamp(t: int)
    requires t >= 0
    ensures var dt := DateTime(CivilFromDays(t / 86400), t % 86400 / 3600, t % 86400 % 3600 / 60, t % 86400 % 60);
      ValidDateTime(dt) && TimestampOf(dt) == t
  {
    var days := t / 86400;
    var secs := t % 86400;
    CivilFromDaysInverse(days);
    SplitSecondOfDay(secs);
    assert days * 86400 + secs == t;
  }

  /** `time.gmtime(t)` for a non-negative timestamp. */
  function Gmtime(t: int): (dt: DateTime)
    requires t >= 0
    ensures ValidDateTime(dt) && TimestampOf(dt) == t
    ensures t < MaxTimestamp ==> 1970 <= dt.date.year <= 9999
  {
    SplitTimestamp(t);
    CivilYearBounds(t / 86400);
    DateTime(CivilFromDays(t / 86400), t % 86400 / 3600, t % 86400 % 3600 / 60, t % 86400 % 60)
  }

  /** A timestamp one day later shows the next calendar day at the same time of day. */
  lemma GmtimeNextDay(t: int)
    requires t >= 0
    ensures Gmtime(t + 86400).date == NextDate(Gmtime(t).date)
    ensures Gmtime(t + 86400).hour == Gmtime(t).hour
    ensures Gmtime(t + 86400).minute == Gmtime(t).minute
    ensures Gmtime(t + 86400).second == Gmtime(t).second
  {
    assert (t + 86400) / 86400 == t / 86400 + 1 && (t + 86400) % 86400 == t % 86400;
    CivilFromDaysNext(t / 86400);
  }

  /** `time.strftime('%Y-%m-%d %H:%M:%S', dt)`; `%Y` prints the year without padding. */
  function Strftime(dt: DateTime): (r: string)
    requires ValidDateTime(dt) && dt.date.year >= 0
    ensures |r| == |ToDecimal(dt.date.year)| + 15
    ensures r[..|ToDecimal(dt.date.year)|] == ToDecimal(dt.date.year)
  {
    ToDecimal(dt.date.year) + "-" + Pad2(dt.date.month) + "-" + Pad2(dt.date.day) + " " +
    Pad2(dt.hour) + ":" + Pad2(dt.minute) + ":" + Pad2(dt.second)
  }

  /** A year from 1000 to 9999 is written with four digits. */
  lemma FourDigitYear(y: nat)
    ensures 1000 <= y <= 9999 ==> |ToDecimal(y)| == 4
  {
    if 1000 <= y <= 9999 {
      assert Pow10(3) == 1000 && Pow10(4) == 10000;
      ToDecimalLength(y, 4);
    }
  }

  /** The 19-column expiration field: the UTC time when positive, else `Permanent` padded. */
  function ExpirationField(expiration: int): (r: string)
    ensures expiration < MaxTimestamp ==> |r| == 19
    ensures expiration <= 0 ==> TrimEnd(r) == "Permanent"
  {
    if expiration > 0 then
      var dt := Gmtime(expiration);
      FourDigitYear(dt.date.year);
      Strftime(dt)
    else
      TrimEndLJust("Permanent", 19); LJust("Permanent", 19)
  }

  /** `f"allow {ip};".ljust(22)` */
  function Directive(ip: string): (r: string)
    ensures |r| >= 22 && |r| >= |ip| + 7
    ensures r[..|ip| + 7] == "allow " + ip + ";"
  {
    LJust("allow " + ip + ";", 22)
  }

  /** `dbrow_to_str(rowid, ip, label, expiration)` */
  function DbRowToStr(row: Row): (r: string)
    ensures |r| >= |Directive(row.ip)| + |row.labelText|
    ensures r[..|Directive(row.ip)|] == Directive(row.ip)
    ensures r[|r| - |row.labelText|..] == row.labelText
  {
    Directive(row.ip) + " # " + LJust(IntToDecimal(row.id), 3) + " | " +
    ExpirationField(row.expiration) + " | " + row.labelText
  }

  /** One rendered line per row, in the rows' order. */
  function ConfLines(rows: seq<Row>): (lines: seq<string>)
    ensures |lines| == |rows|
    ensures forall i :: 0 <= i < |rows| ==> lines[i] == DbRowToStr(rows[i])
  {
    if rows == [] then [] else [DbRowToStr(rows[0])] + ConfLines(rows[1..])
  }

  /** `'\n'.join(dbrow_to_str(...) for r in rows)`: the text written to `allow.conf`. */
  function AllowConf(rows: seq<Row>): (r: string)
    ensures r == "" <==> rows == []
  {
    Join(ConfLines(rows), '\n')
  }

  // ---------------------------------------------------------------------
  // Reading the format back
  // ---------------------------------------------------------------------

  /** Reads `YYYY-MM-DD HH:MM:SS` back to a timestamp. */
  function ParseUtc(s: string): Option<int>
  {
    if |s| == 19 && s[4] == '-' && s[7] == '-' && s[10] == ' ' && s[13] == ':' && s[16] == ':' &&
       AllDigits(s[..4]) && AllDigits(s[5..7]) && AllDigits(s[8..10]) &&
       AllDigits(s[11..13]) && AllDigits(s[14..16]) && AllDigits(s[17..])
    then
      Some(TimestampOf(DateTime(Date(Value(s[..4]), Value(s[5..7]), Value(s[8..10])),
                                Value(s[11..13]), Value(s[14..16]), Value(s[17..]))))
    else None
  }

  /** Reads the expiration field back: `Permanent` is 0. */
  function ParseExpiration(field: string): Option<int>
  {
    if field == LJust("Permanent", 19) then Some(0) else ParseUtc(field)
  }

  /** Reads one line of `allow.conf` back to the row it was rendered from. */
  function ParseRow(line: string): Option<Row>
  {
    if |line| < 53 || line[22..25] != " # " || line[28..31] != " | " || line[50..53] != " | " then None
    else
      var directive := TrimEnd(line[..22]);
      var idText := TrimEnd(line[25..28]);
      if |directive| < 7 || directive[..6] != "allow " || directive[|directive| - 1] != ';' ||
         idText == [] || !AllDigits(idText)
      then None
      else
        match ParseExpiration(line[31..50])
        case None => None
        case Some(e) => Some(Row(Value(idText), directive[6..|directive| - 1], line[53..], e))
  }

  function ParseLines(lines: seq<string>): Option<seq<Row>>
  {
    if lines == [] then Some([])
    else
      var head := ParseRow(lines[0]);
      var rest := ParseLines(lines[1..]);
      if head.Some? && rest.Some? then Some([head.value] + rest.value) else None
  }

  /** Reads a whole `allow.conf` back: the empty file holds no row. */
  function ParseConf(text: string): Option<seq<Row>>
  {
    if text == "" then Some([]) else ParseLines(Split(text, '\n'))
  }

  // ---------------------------------------------------------------------
  // Properties of the format
  // ---------------------------------------------------------------------

  /** A row the add handler can create and the renderer lays out in fixed columns. */
  predicate Renderable(row: Row)
  {
    IpShape(row.ip) && 0 <= row.id < 1000 && 0 <= row.expiration < MaxTimestamp &&
    '\n' !in row.labelText
  }

  /** For an IP passing the add check, the directive field is exactly 22 columns. */
  lemma DirectiveWidth(ip: string)
    requires IpShape(ip)
    ensures |Directive(ip)| == 22
    ensures TrimEnd(Directive(ip)) == "allow " + ip + ";"
  {
    IpShapeChars(ip);
    TrimEndLJust("allow " + ip + ";", 22);
  }

  /** The id field is three columns for ids below 1000 and reads back to the id. */
  lemma IdFieldLayout(id: int)
    requires 0 <= id < 1000
    ensures |LJust(IntToDecimal(id), 3)| == 3
    ensures TrimEnd(LJust(IntToDecimal(id), 3)) == ToDecimal(id)
  {
    ToDecimalAtMostThree(id);
    var s := ToDecimal(id);
    assert IsDigit(s[|s| - 1]);
    TrimEndLJust(s, 3);
  }

  /** Where each field of a strftime result sits. */
  lemma StrftimeLayout(dt: DateTime)
    requires ValidDateTime(dt) && 1000 <= dt.date.year <= 9999
    ensures var s := Strftime(dt);
      |s| == 19 && s[..4] == ToDecimal(dt.date.year) && s[4] == '-' &&
      s[5..7] == Pad2(dt.date.month) && s[7] == '-' && s[8..10] == Pad2(dt.date.day) && s[10] == ' ' &&
      s[11..13] == Pad2(dt.hour) && s[13] == ':' && s[14..16] == Pad2(dt.minute) && s[16] == ':' &&
      s[17..] == Pad2(dt.second)
  {
    assert Pow10(3) == 1000 && Pow10(4) == 10000;
    ToDecimalLength(dt.date.year, 4);
    DateTimeSlices(ToDecimal(dt.date.year), Pad2(dt.date.month), Pad2(dt.date.day),
                   Pad2(dt.hour), Pad2(dt.minute), Pad2(dt.second));
  }

  /** Column positions in `YYYY-MM-DD HH:MM:SS`, whatever the fields hold. */
  lemma DateTimeSlices(year: string, month: string, day: string, hour: string, minute: string, second: string)
    requires |year| == 4 && |month| == 2 && |day| == 2 && |hour| == 2 && |minute| == 2 && |second| == 2
    ensures var s := year + "-" + month + "-" + day + " " + hour + ":" + minute + ":" + second;
      |s| == 19 && s[..4] == year && s[4] == '-' && s[5..7] == month && s[7] == '-' && s[8..10] == day &&
      s[10] == ' ' && s[11..13] == hour && s[13] == ':' && s[14..16] == minute && s[16] == ':' &&
      s[17..] == second
  {
    var date := year + "-" + month + "-" + day + " ";
    var time := hour + ":" + minute + ":" + second;
    var s := date + time;
    assert s[..11] == date && s[11..] == time;
    assert date[..4] == year && date[5..7] == month && date[8..10] == day;
    assert time[..2] == hour && time[3..5] == minute && time[6..] == second;
  }

  /** Between 1970 and the end of year 9999 the expiration field is 19 columns and reads back to the timestamp. */
  lemma ExpirationFieldRoundTrip(expiration: int)
    requires 0 <= expiration < MaxTimestamp
    ensures |ExpirationField(expiration)| == 19
    ensures ParseExpiration(ExpirationField(expiration)) == Some(expiration)
  {
    if expiration > 0 {
      var dt := Gmtime(expiration);
      var s := Strftime(dt);
      StrftimeLayout(dt);
      ValueToDecimal(dt.date.year);
      assert s[0] != 'P';
      assert ParseUtc(s) == Some(TimestampOf(dt));
    }
  }

  /**
   * The fixed columns of a rendered row: the directive in columns 0-21,
   * ` # `, the id in 25-27, ` | `, the expiration in 31-49, ` | `, then the label.
   */
  lemma DbRowToStrLayout(row: Row)
    requires Renderable(row)
    ensures var line := DbRowToStr(row);
      |line| == 53 + |row.labelText| &&
      line[..22] == Directive(row.ip) && line[22..25] == " # " &&
      line[25..28] == LJust(IntToDecimal(row.id), 3) && line[28..31] == " | " &&
      line[31..50] == ExpirationField(row.expiration) && line[50..53] == " | " &&
      line[53..] == row.labelText
  {
    DirectiveWidth(row.ip);
    IdFieldLayout(row.id);
    ExpirationFieldRoundTrip(row.expiration);
    FieldSlices(Directive(row.ip), LJust(IntToDecimal(row.id), 3), ExpirationField(row.expiration), row.labelText);
  }

  /** Where the fields of a row line start and end once the fixed-width fields have their widths. */
  lemma FieldSlices(directive: string, id: string, expiration: string, labelText: string)
    requires |directive| == 22 && |id| == 3 && |expiration| == 19
    ensures var line := directive + " # " + id + " | " + expiration + " | " + labelText;
      |line| == 53 + |labelText| &&
      line[..22] == directive && line[22..25] == " # " && line[25..28] == id && line[28..31] == " | " &&
      line[31..50] == expiration && line[50..53] == " | " && line[53..] == labelText
  {
  }

  /** Reading a rendered row gives the row back. */
  lemma ParseDbRowToStr(row: Row)
    requires Renderable(row)
    ensures ParseRow(DbRowToStr(row)) == Some(row)
  {
    var line := DbRowToStr(row);
    DbRowToStrLayout(row);
    DirectiveWidth(row.ip);
    IdFieldLayout(row.id);
    ExpirationFieldRoundTrip(row.expiration);
    ValueToDecimal(row.id);
    var directive := "allow " + row.ip + ";";
    assert directive[..6] == "allow " && directive[6..|directive| - 1] == row.ip;
  }

  lemma NoNewlineInDigits(s: string)
    requires AllDigits(s)
    ensures '\n' !in s
  {
    forall i | 0 <= i < |s| ensures s[i] != '\n' {
      assert IsDigit(s[i]);
    }
  }

  lemma NoNewlineLJust(s: string, width: int)
    requires '\n' !in s
    ensures '\n' !in LJust(s, width)
  {
    var r := LJust(s, width);
    forall i | 0 <= i < |r| ensures r[i] != '\n' {
      if i < |s| {
        assert r[i] == r[..|s|][i] == s[i];
      }
    }
  }

  lemma DirectiveOneLine(ip: string)
    requires IpShape(ip)
    ensures '\n' !in Directive(ip)
  {
    IpShapeChars(ip);
    assert '\n' !in ip by {
      forall i | 0 <= i < |ip| ensures ip[i] != '\n' {
        assert IsDigit(ip[i]) || ip[i] == '.';
      }
    }
    NoNewlineLJust("allow " + ip + ";", 22);
  }

  lemma ExpirationFieldOneLine(expiration: int)
    ensures '\n' !in ExpirationField(expiration)
  {
    if expiration > 0 {
      var dt := Gmtime(expiration);
      NoNewlineInDigits(ToDecimal(dt.date.year));
      NoNewlineInDigits(Pad2(dt.date.month));
      NoNewlineInDigits(Pad2(dt.date.day));
      NoNewlineInDigits(Pad2(dt.hour));
      NoNewlineInDigits(Pad2(dt.minute));
      NoNewlineInDigits(Pad2(dt.second));
    } else {
      NoNewlineLJust("Permanent", 19);
    }
  }

  /** A renderable row renders to a single line. */
  lemma DbRowToStrOneLine(row: Row)
    requires Renderable(row)
    ensures '\n' !in DbRowToStr(row)
  {
    DirectiveOneLine(row.ip);
    NoNewlineInDigits(ToDecimal(row.id));
    NoNewlineLJust(IntToDecimal(row.id), 3);
    ExpirationFieldOneLine(row.expiration);
  }

  /** An empty table renders as the empty file. */
  lemma AllowConfEmpty()
    ensures AllowConf([]) == ""
  {
  }

  /** The file has exactly one line per row, in ROWID order, with no trailing newline. */
  lemma AllowConfLines(rows: seq<Row>)
    requires rows != []
    requires forall i :: 0 <= i < |rows| ==> Renderable(rows[i])
    ensures Split(AllowConf(rows), '\n') == ConfLines(rows)
  {
    forall i | 0 <= i < |rows| ensures '\n' !in ConfLines(rows)[i] {
      DbRowToStrOneLine(rows[i]);
    }
    SplitJoin(ConfLines(rows), '\n');
  }

  /** Lines that each read back to the matching row read back, together, to the rows. */
  lemma {:induction false} ParseLinesEach(lines: seq<string>, rows: seq<Row>, k: nat)
    requires |lines| == |rows| && k <= |lines|
    requires forall i :: 0 <= i < |lines| ==> ParseRow(lines[i]) == Some(rows[i])
    ensures ParseLines(lines[k..]) == Some(rows[k..])
    decreases |lines| - k
  {
    if k < |lines| {
      ParseLinesEach(lines, rows, k + 1);
      assert lines[k..][1..] == lines[k + 1..] && rows[k..][1..] == rows[k + 1..];
      ParseLinesStep(lines[k..], rows[k..], ParseRow(lines[k]));
    } else {
      assert lines[k..] == [] && rows[k..] == [];
    }
  }

  /** One step of the reader: a parsed head in front of a parsed tail. */
  lemma ParseLinesStep(lines: seq<string>, rows: seq<Row>, head: Option<Row>)
    requires |lines| == |rows| > 0 && head == ParseRow(lines[0]) && head == Some(rows[0])
    requires ParseLines(lines[1..]) == Some(rows[1..])
    ensures ParseLines(lines) == Some(rows)
  {
    assert rows == [rows[0]] + rows[1..];
  }

  lemma ParseLinesOfRows(rows: seq<Row>)
    requires forall i :: 0 <= i < |rows| ==> Renderable(rows[i])
    ensures ParseLines(ConfLines(rows)) == Some(rows)
  {
    var lines := ConfLines(rows);
    forall i | 0 <= i < |lines| ensures ParseRow(lines[i]) == Some(rows[i]) {
      ParseDbRowToStr(rows[i]);
    }
    ParseLinesEach(lines, rows, 0);
    assert lines[0..] == lines && rows[0..] == rows;
  }

  /** Reading the rendered file gives back every row, in order: rendering loses nothing. */
  lemma ParseAllowConf(rows: seq<Row>)
    requires forall i :: 0 <= i < |rows| ==> Renderable(rows[i])
    ensures ParseConf(AllowConf(rows)) == Some(rows)
  {
    if rows != [] {
      var lines := ConfLines(rows);
      DbRowToStrLayout(rows[0]);
      assert |Join(lines, '\n')| >= |lines[0]|;
      AllowConfLines(rows);
      ParseLinesOfRows(rows);
    }
  }

  /** Two tables of renderable rows with the same `allow.conf` hold the same rows in the same order. */
  lemma AllowConfInjective(a: seq<Row>, b: seq<Row>)
    requires forall i :: 0 <= i < |a| ==> Renderable(a[i])
    requires forall i :: 0 <= i < |b| ==> Renderable(b[i])
    requires AllowConf(a) == AllowConf(b)
    ensures a == b
  {
    ParseAllowConf(a);
    ParseAllowConf(b);
  }

  /** A newline inside the IP ends up inside the rendered line. */
  lemma NewlineInIpBreaksLine(row: Row)
    requires '\n' in row.ip
    ensures '\n' in DbRowToStr(row)
  {
    var directive := "allow " + row.ip + ";";
    assert '\n' in directive;
    assert Directive(row.ip) == directive + Directive(row.ip)[|directive|..];
  }

  /**
   * The IP check as written lets `10.0.0.5\n` through; its row then renders
   * as two lines, so `allow.conf` no longer holds one directive per row.
   */
  lemma NewlineIpBreaksConf()
    ensures var row := Row(1, "10.0.0.5\n", "", 0);
      IpMatchAsWritten(row.ip) && |Split(AllowConf([row]), '\n')| >= 2
  {
    TrailingNewlineAccepted();
    var row := Row(1, "10.0.0.5\n", "", 0);
    assert "10.0.0.5\n"[8] == '\n';
    NewlineInIpBreaksLine(row);
    assert AllowConf([row]) == DbRowToStr(row);
  }
}
