/**
 The `%Y-%m-%d_%H-%M-%S` text of a date and time: fixed-width, zero-padded fields, most
 significant first. Snapshot selection compares file names as strings and relies on that
 comparison agreeing with the order of the instants they name.
 */
module Timestamp {
  import opened Strings

  datatype DateTime = DateTime(year: int, month: int, day: int, hour: int, minute: int, second: int)

  /** Field ranges of a four-digit-year date and time. */
  predicate Valid(t: DateTime) {
    && 1000 <= t.year <= 9999
    && 1 <= t.month <= 12
    && 1 <= t.day <= 31
    && 0 <= t.hour <= 23
    && 0 <= t.minute <= 59
    && 0 <= t.second <= 59
  }

  /** Strictly earlier: compare year, then month, day, hour, minute and second. */
  predicate Before(t1: DateTime, t2: DateTime) {
    || t1.year < t2.year
    || (t1.year == t2.year && t1.month < t2.month)
    || (t1.year == t2.year && t1.month == t2.month && t1.day < t2.day)
    || (t1.year == t2.year && t1.month == t2.month && t1.day == t2.day && t1.hour < t2.hour)
    || (t1.year == t2.year && t1.month == t2.month && t1.day == t2.day && t1.hour == t2.hour
        && t1.minute < t2.minute)
    || (t1.year == t2.year && t1.month == t2.month && t1.day == t2.day && t1.hour == t2.hour
        && t1.minute == t2.minute && t1.second < t2.second)
  }

  function Digit(d: int): char
    requires 0 <= d <= 9
  {
    ('0' as int + d) as char
  }

  /** Two-digit zero-padded decimal. */
  function Pad2(n: int): string
    requires 0 <= n <= 99
  {
    [Digit(n / 10), Digit(n % 10)]
  }

  /** Four-digit zero-padded decimal. */
  function Pad4(n: int): string
    requires 0 <= n <= 9999
  {
    Pad2(n / 100) + Pad2(n % 100)
  }

  /** A separator followed by a two-digit field. */
  function Field(sep: char, n: int): string
    requires 0 <= n <= 99
  {
    [sep] + Pad2(n)
  }

  /** `strftime("%Y-%m-%d_%H-%M-%S")` of a valid date and time. */
  function Format(t: DateTime): (s: string)
    requires Valid(t)
    ensures |s| == 19
    ensures '.' !in s
  {
    Pad4(t.year) + (Field('-', t.month) + (Field('-', t.day) + (Field('_', t.hour)
      + (Field('-', t.minute) + Field('-', t.second)))))
  }

  lemma DigitOrder(d: int, e: int)
    requires 0 <= d <= 9 && 0 <= e <= 9
    ensures Digit(d) < Digit(e) <==> d < e
    ensures Digit(d) == Digit(e) <==> d == e
  {
  }

  lemma Pad2Order(x: int, y: int)
    requires 0 <= x <= 99 && 0 <= y <= 99
    ensures LexLess(Pad2(x), Pad2(y)) <==> x < y
    ensures Pad2(x) == Pad2(y) <==> x == y
  {
    var a, b := Pad2(x), Pad2(y);
    DigitOrder(x / 10, y / 10);
    DigitOrder(x % 10, y % 10);
    assert a == [a[0]] + [a[1]] && b == [b[0]] + [b[1]];
    LexLessConcat([a[0]], [a[1]], [b[0]], [b[1]]);
    assert LexLess([a[0]], [b[0]]) <==> a[0] < b[0] by {
      assert [a[0]][1..] == [] && [b[0]][1..] == [];
    }
    assert LexLess([a[1]], [b[1]]) <==> a[1] < b[1] by {
      assert [a[1]][1..] == [] && [b[1]][1..] == [];
    }
    if x / 10 == y / 10 && x % 10 == y % 10 {
      assert x == y;
    }
  }

  lemma Pad4Order(x: int, y: int)
    requires 0 <= x <= 9999 && 0 <= y <= 9999
    ensures LexLess(Pad4(x), Pad4(y)) <==> x < y
    ensures Pad4(x) == Pad4(y) <==> x == y
  {
    Pad2Order(x / 100, y / 100);
    Pad2Order(x % 100, y % 100);
    LexLessConcat(Pad2(x / 100), Pad2(x % 100), Pad2(y / 100), Pad2(y % 100));
    if Pad4(x) == Pad4(y) {
      assert Pad4(x)[..2] == Pad2(x / 100) && Pad4(y)[..2] == Pad2(y / 100);
      assert Pad4(x)[2..] == Pad2(x % 100) && Pad4(y)[2..] == Pad2(y % 100);
    }
  }

  lemma FieldOrder(sep: char, x: int, y: int)
    requires 0 <= x <= 99 && 0 <= y <= 99
    ensures LexLess(Field(sep, x), Field(sep, y)) <==> x < y
    ensures Field(sep, x) == Field(sep, y) <==> x == y
  {
    Pad2Order(x, y);
    LexLessConcat([sep], Pad2(x), [sep], Pad2(y));
    LexLessIrreflexive([sep]);
    if Field(sep, x) == Field(sep, y) {
      assert Field(sep, x)[1..] == Pad2(x) && Field(sep, y)[1..] == Pad2(y);
    }
  }

  /** Comparing a field then the rest, for a field of fixed width `|a| == |c|`. */
  lemma Step(a: string, b: string, c: string, d: string)
    requires |a| == |c|
    ensures LexLess(a + b, c + d) <==> LexLess(a, c) || (a == c && LexLess(b, d))
    ensures a + b == c + d <==> a == c && b == d
  {
    LexLessConcat(a, b, c, d);
    if a + b == c + d {
      assert (a + b)[..|a|] == a && (c + d)[..|c|] == c;
      assert (a + b)[|a|..] == b && (c + d)[|c|..] == d;
    }
  }

  /**
   For valid dates and times the formatted strings compare, as strings, exactly as the
   instants do, so the greatest name in a listing is the latest snapshot.
   */
  lemma FormatOrder(t1: DateTime, t2: DateTime)
    requires Valid(t1) && Valid(t2)
    ensures LexLess(Format(t1), Format(t2)) <==> Before(t1, t2)
  {
    var s5, u5 := Field('-', t1.second), Field('-', t2.second);
    var s4, u4 := Field('-', t1.minute) + s5, Field('-', t2.minute) + u5;
    var s3, u3 := Field('_', t1.hour) + s4, Field('_', t2.hour) + u4;
    var s2, u2 := Field('-', t1.day) + s3, Field('-', t2.day) + u3;
    var s1, u1 := Field('-', t1.month) + s2, Field('-', t2.month) + u2;
    FieldOrder('-', t1.second, t2.second);
    FieldOrder('-', t1.minute, t2.minute);
    Step(Field('-', t1.minute), s5, Field('-', t2.minute), u5);
    FieldOrder('_', t1.hour, t2.hour);
    Step(Field('_', t1.hour), s4, Field('_', t2.hour), u4);
    FieldOrder('-', t1.day, t2.day);
    Step(Field('-', t1.day), s3, Field('-', t2.day), u3);
    FieldOrder('-', t1.month, t2.month);
    Step(Field('-', t1.month), s2, Field('-', t2.month), u2);
    Pad4Order(t1.year, t2.year);
    Step(Pad4(t1.year), s1, Pad4(t2.year), u1);
  }
}
