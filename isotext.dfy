/** The text that Python's `datetime.isoformat()` produces, and the order in
    which SQLite's default (BINARY) collation sorts such text. The ledger
    stores timestamps as this text and selects statement rows with
    `timestamp BETWEEN start AND end` on it; the lemmas here show that this
    text order is exactly the chronological order of the date-times. */
module IsoText {
  import opened Calendar

  function Pow10(k: nat): (p: nat)
    ensures p >= 1
  {
    if k == 0 then 1 else 10 * Pow10(k - 1)
  }

  function DigitChar(n: int): char
    requires 0 <= n < 10
  {
    (48 + n) as char
  }

  /** `n` in exactly `width` decimal digits, zero-padded (`%0<width>d`). */
  function Padded(n: nat, width: nat): (s: string)
    ensures |s| == width
  {
    if width == 0 then [] else Padded(n / 10, width - 1) + [DigitChar(n % 10)]
  }

  /** A zero-padded number followed by a separator character. */
  function Part(n: nat, width: nat, sep: char): (s: string)
    ensures |s| == width + 1 && s[width] == sep
  {
    Padded(n, width) + [sep]
  }

  /** `YYYY-MM-DDT`: the date and the separator before the time. */
  function DateText(d: Date): (s: string)
    requires ValidDate(d)
    ensures |s| == 11 && s[4] == '-' && s[7] == '-' && s[10] == 'T'
  {
    Part(d.year, 4, '-') + (Part(d.month, 2, '-') + Part(d.day, 2, 'T'))
  }

  /** The fractional part: absent when the microseconds are zero, otherwise
      a dot and six digits. */
  function IsoFraction(micro: nat): (s: string)
    ensures |s| == if micro == 0 then 0 else 7
    ensures micro != 0 ==> s[0] == '.'
  {
    if micro == 0 then "" else "." + Padded(micro, 6)
  }

  /** `HH:MM:SS`, then the fractional part. */
  function TimeText(t: DateTime): (s: string)
    requires ValidTime(t)
    ensures |s| == 8 + |IsoFraction(t.micro)| && s[2] == ':' && s[5] == ':'
  {
    Part(t.hour, 2, ':') + (Part(t.minute, 2, ':') + (Padded(t.second, 2) + IsoFraction(t.micro)))
  }

  /** The text of `datetime.isoformat()` for a naive date-time:
      `YYYY-MM-DDTHH:MM:SS`, then `.ffffff` only when the microseconds are
      non-zero. */
  function IsoFormat(t: DateTime): (s: string)
    requires ValidDateTime(t)
    ensures |s| == if t.micro == 0 then 19 else 26
  {
    DateText(t.date) + TimeText(t)
  }

  /** The separators of the isoformat text: `-` at 4 and 7, `T` at 10, `:`
      at 13 and 16, and `.` at 19 before the microseconds. */
  lemma IsoLayout(t: DateTime)
    requires ValidDateTime(t)
    ensures var s := IsoFormat(t);
            s[4] == '-' && s[7] == '-' && s[10] == 'T' && s[13] == ':' && s[16] == ':' &&
            (t.micro != 0 ==> s[19] == '.')
  {
  }

  /** SQLite's BINARY collation: compare character by character; a proper
      prefix sorts first. A text sorts at or before each text it is a
      prefix of (itself included), and never at or before a text whose
      first character is smaller. */
  predicate TextLe(a: string, b: string)
    ensures a <= b ==> TextLe(a, b)
    ensures TextLe(a, b) && a != [] ==> b != [] && a[0] <= b[0]
  {
    if a == [] then true
    else if b == [] then false
    else a[0] < b[0] || (a[0] == b[0] && TextLe(a[1..], b[1..]))
  }

  /** Any two texts are comparable. */
  lemma {:induction false} TextLeTotal(a: string, b: string)
    ensures TextLe(a, b) || TextLe(b, a)
  {
    if a != [] && b != [] && a[0] == b[0] {
      TextLeTotal(a[1..], b[1..]);
    }
  }

  /** Comparing two texts that start with equally long heads: the heads
      decide unless they are equal, and then the tails decide. */
  lemma {:induction false} TextLeConcat(a: string, b: string, c: string, d: string)
    requires |a| == |c|
    ensures TextLe(a + b, c + d) <==> if a == c then TextLe(b, d) else TextLe(a, c)
  {
    if a == [] {
      assert a + b == b && c + d == d;
    } else {
      assert (a + b)[0] == a[0] && (a + b)[1..] == a[1..] + b;
      assert (c + d)[0] == c[0] && (c + d)[1..] == c[1..] + d;
      TextLeConcat(a[1..], b, c[1..], d);
      assert TextLe(a[1..], a[1..]);
      assert a == c <==> a[0] == c[0] && a[1..] == c[1..] by {
        if a[0] == c[0] && a[1..] == c[1..] {
          assert a == [a[0]] + a[1..] && c == [c[0]] + c[1..];
        }
      }
    }
  }

  lemma ConcatInjective(a: string, b: string, c: string, d: string)
    requires |a| == |c| && a + b == c + d
    ensures a == c && b == d
  {
    assert a == (a + b)[..|a|] && c == (c + d)[..|c|];
    assert b == (a + b)[|a|..] && d == (c + d)[|c|..];
  }

  /** Zero-padded numerals of one width sort as their numbers do, and two of
      them are equal only for equal numbers. */
  lemma {:induction false} PaddedOrder(x: nat, y: nat, w: nat)
    requires x < Pow10(w) && y < Pow10(w)
    ensures TextLe(Padded(x, w), Padded(y, w)) <==> x <= y
    ensures Padded(x, w) == Padded(y, w) <==> x == y
  {
    if w > 0 {
      var hx, hy := Padded(x / 10, w - 1), Padded(y / 10, w - 1);
      var lx, ly := [DigitChar(x % 10)], [DigitChar(y % 10)];
      PaddedOrder(x / 10, y / 10, w - 1);
      TextLeConcat(hx, lx, hy, ly);
      assert TextLe(lx, ly) <==> x % 10 <= y % 10 by {
        assert lx[1..] == [] && ly[1..] == [];
      }
      if hx + lx == hy + ly {
        ConcatInjective(hx, lx, hy, ly);
      }
    }
  }

  lemma PartOrder(x: nat, y: nat, w: nat, sep: char)
    requires x < Pow10(w) && y < Pow10(w)
    ensures TextLe(Part(x, w, sep), Part(y, w, sep)) <==> x <= y
    ensures Part(x, w, sep) == Part(y, w, sep) <==> x == y
  {
    PaddedOrder(x, y, w);
    TextLeConcat(Padded(x, w), [sep], Padded(y, w), [sep]);
    assert TextLe([sep], [sep]);
    if Part(x, w, sep) == Part(y, w, sep) {
      ConcatInjective(Padded(x, w), [sep], Padded(y, w), [sep]);
    }
  }

  /** One field followed by the rest, compared against another such text:
      the first field decides unless it is equal. */
  lemma FieldThen(x: nat, y: nat, w: nat, sep: char, r1: string, r2: string)
    requires x < Pow10(w) && y < Pow10(w)
    ensures TextLe(Part(x, w, sep) + r1, Part(y, w, sep) + r2) <==>
            x < y || (x == y && TextLe(r1, r2))
    ensures Part(x, w, sep) + r1 == Part(y, w, sep) + r2 <==> x == y && r1 == r2
  {
    PartOrder(x, y, w, sep);
    TextLeConcat(Part(x, w, sep), r1, Part(y, w, sep), r2);
    if Part(x, w, sep) + r1 == Part(y, w, sep) + r2 {
      ConcatInjective(Part(x, w, sep), r1, Part(y, w, sep), r2);
    }
  }

  lemma FractionOrder(a: nat, b: nat)
    requires a < 1000000 && b < 1000000
    ensures TextLe(IsoFraction(a), IsoFraction(b)) <==> a <= b
    ensures IsoFraction(a) == IsoFraction(b) <==> a == b
  {
    assert Pow10(6) == 1000000;
    PaddedOrder(a, b, 6);
    if a != 0 && b != 0 {
      TextLeConcat(".", Padded(a, 6), ".", Padded(b, 6));
      if IsoFraction(a) == IsoFraction(b) {
        ConcatInjective(".", Padded(a, 6), ".", Padded(b, 6));
      }
    }
  }

  lemma DateTextOrder(a: Date, b: Date)
    requires ValidDate(a) && ValidDate(b)
    ensures TextLe(DateText(a), DateText(b)) <==> DateLe(a, b)
    ensures DateText(a) == DateText(b) <==> a == b
  {
    assert Pow10(2) == 100 && Pow10(4) == 10000;
    PartOrder(a.day, b.day, 2, 'T');
    FieldThen(a.month, b.month, 2, '-', Part(a.day, 2, 'T'), Part(b.day, 2, 'T'));
    FieldThen(a.year, b.year, 4, '-',
      Part(a.month, 2, '-') + Part(a.day, 2, 'T'), Part(b.month, 2, '-') + Part(b.day, 2, 'T'));
  }

  lemma TimeTextOrder(a: DateTime, b: DateTime)
    requires ValidTime(a) && ValidTime(b)
    ensures TextLe(TimeText(a), TimeText(b)) <==> ClockLe(a, b)
    ensures TimeText(a) == TimeText(b) <==>
            (a.hour == b.hour && a.minute == b.minute && a.second == b.second && a.micro == b.micro)
  {
    assert Pow10(2) == 100;
    var s := Padded(a.second, 2) + IsoFraction(a.micro);
    var t := Padded(b.second, 2) + IsoFraction(b.micro);
    PaddedOrder(a.second, b.second, 2);
    FractionOrder(a.micro, b.micro);
    TextLeConcat(Padded(a.second, 2), IsoFraction(a.micro), Padded(b.second, 2), IsoFraction(b.micro));
    if s == t {
      ConcatInjective(Padded(a.second, 2), IsoFraction(a.micro), Padded(b.second, 2), IsoFraction(b.micro));
    }
    FieldThen(a.minute, b.minute, 2, ':', s, t);
    FieldThen(a.hour, b.hour, 2, ':', Part(a.minute, 2, ':') + s, Part(b.minute, 2, ':') + t);
  }

  /** The isoformat texts of two valid date-times compare, under SQLite's
      text collation, exactly as the date-times do, and equal texts mean
      equal date-times. */
  lemma IsoFormatOrder(a: DateTime, b: DateTime)
    requires ValidDateTime(a) && ValidDateTime(b)
    ensures TextLe(IsoFormat(a), IsoFormat(b)) <==> DateTimeLe(a, b)
    ensures IsoFormat(a) == IsoFormat(b) <==> a == b
  {
    DateTextOrder(a.date, b.date);
    TimeTextOrder(a, b);
    TextLeConcat(DateText(a.date), TimeText(a), DateText(b.date), TimeText(b));
    if IsoFormat(a) == IsoFormat(b) {
      ConcatInjective(DateText(a.date), TimeText(a), DateText(b.date), TimeText(b));
    }
  }

  /** The isoformat text is the text at whole seconds followed by the
      fractional part. */
  lemma IsoSplit(t: DateTime)
    requires ValidDateTime(t)
    ensures IsoFormat(t) == IsoFormat(t.(micro := 0)) + IsoFraction(t.micro)
  {
    var date, hour, minute, second := DateText(t.date), Part(t.hour, 2, ':'), Part(t.minute, 2, ':'), Padded(t.second, 2);
    var frac := IsoFraction(t.micro);
    assert second + "" == second;
    assert IsoFormat(t.(micro := 0)) == date + (hour + (minute + second));
    assert IsoFormat(t) == date + (hour + (minute + (second + frac)));
  }

  /** The statement's date column, `timestamp[:19]`: the isoformat text with
      the fractional seconds dropped, which is the isoformat of the same
      date-time at whole seconds. */
  lemma IsoPrefix(t: DateTime)
    requires ValidDateTime(t)
    ensures IsoFormat(t)[..19] == IsoFormat(t.(micro := 0))
  {
    var whole := IsoFormat(t.(micro := 0));
    IsoSplit(t);
    assert (whole + IsoFraction(t.micro))[..|whole|] == whole;
  }
}
