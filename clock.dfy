/** Wall-clock readings as `datetime` holds them, and the two `strftime`
    formats the organizer writes. */
module Clock {
  import opened Text

  /** `datetime.MINYEAR` to `datetime.MAXYEAR`. */
  type Year = y: int | 1 <= y <= 9999 witness 1

  datatype DateTime = DateTime(year: Year, month: nat, day: nat, hour: nat, minute: nat, second: nat)

  predicate ValidDateTime(t: DateTime)
  {
    1 <= t.month <= 12 && 1 <= t.day <= 31 && t.hour < 24 && t.minute < 60 && t.second < 60
  }

  /** `strftime("%Y%m%d_%H%M%S")`, the stamp put into a renamed file. */
  function FileStamp(t: DateTime): (r: string)
    ensures forall i :: 0 <= i < |r| ==> IsDigit(r[i]) || r[i] == '_'
    ensures ValidDateTime(t) ==> |r| == 15 && r[8] == '_'
  {
    DigitsLength(t.year); DigitsLength(t.month); DigitsLength(t.day);
    DigitsLength(t.hour); DigitsLength(t.minute); DigitsLength(t.second);
    var date := Padded(t.year, 4) + Padded(t.month, 2) + Padded(t.day, 2);
    var time := Padded(t.hour, 2) + Padded(t.minute, 2) + Padded(t.second, 2);
    assert forall i :: 0 <= i < |date| ==> IsDigit(date[i]);
    assert forall i :: 0 <= i < |time| ==> IsDigit(time[i]);
    date + "_" + time
  }

  /** Two digits and a separator before them: `-%m`, `:%M` and the like. */
  function Field(sep: char, n: nat): (r: string)
    ensures |r| >= 3 && r[0] == sep
    ensures n < 100 ==> |r| == 3
    ensures forall i :: 1 <= i < |r| ==> IsDigit(r[i])
  {
    DigitsLength(n);
    [sep] + Padded(n, 2)
  }

  /** `%Y-%m-%d`. */
  function DateText(t: DateTime): (r: string)
    ensures forall i :: 0 <= i < |r| ==> IsDigit(r[i]) || r[i] == '-'
    ensures ValidDateTime(t) ==> |r| == 10 && r[4] == '-' && r[7] == '-'
  {
    DigitsLength(t.year);
    Padded(t.year, 4) + Field('-', t.month) + Field('-', t.day)
  }

  /** `%H:%M:%S`. */
  function TimeText(t: DateTime): (r: string)
    ensures forall i :: 0 <= i < |r| ==> IsDigit(r[i]) || r[i] == ':'
    ensures ValidDateTime(t) ==> |r| == 8 && r[2] == ':' && r[5] == ':'
  {
    DigitsLength(t.hour);
    Padded(t.hour, 2) + Field(':', t.minute) + Field(':', t.second)
  }

  /** `strftime('%Y-%m-%d %H:%M:%S')`, the time in the error log's header. */
  function LogStamp(t: DateTime): (r: string)
    ensures forall i :: 0 <= i < |r| ==> IsDigit(r[i]) || r[i] in "- :"
    ensures ValidDateTime(t) ==> |r| == 19 && r[4] == '-' && r[7] == '-' && r[10] == ' ' && r[13] == ':' && r[16] == ':'
  {
    var date, time := DateText(t), TimeText(t);
    assert forall i :: 0 <= i < |time| ==> time[i] == (date + " " + time)[|date| + 1 + i];
    date + " " + time
  }
}
