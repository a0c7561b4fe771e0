// getOccurrenceKey: the text that joins a weekly occurrence to its
// per-occurrence exception, `YYYY-MM-DDThh:mm` from the local wall clock,
// the year unpadded and every other field padded to two digits.

module OccurrenceKey {
  import opened Base
  import opened Calendar

  predicate ValidClock(w: WallClock) {
    ValidCivil(CivilDate(w.year, w.month, w.date)) && 0 <= w.hours < 24 && 0 <= w.minutes < 60
  }

  /** The fixed-width part after the year: `-MM-DDThh:mm`. */
  function ClockTail(w: WallClock): string
  {
    "-" + Pad2(w.month + 1) + "-" + Pad2(w.date) + "T" + Pad2(w.hours) + ":" + Pad2(w.minutes)
  }

  /** The key of a wall-clock reading; getMonth() counts from 0, so the key shows month + 1. */
  function KeyOfClock(w: WallClock): string
  {
    IntString(w.year) + ClockTail(w)
  }

  /** The occurrence key of an instant. */
  function KeyOf(t: int): (k: string)
  {
    KeyOfClock(WallClockOf(t))
  }

  /** After the year's text the key has twelve characters `-MM-DDThh:mm` of two-digit fields. */
  lemma KeyLayout(w: WallClock)
    requires 0 <= w.month < 99 && 0 <= w.date < 100 && 0 <= w.hours < 100 && 0 <= w.minutes < 100
    ensures ClockTail(w) == ['-', DigitChar((w.month + 1) / 10), DigitChar((w.month + 1) % 10),
                             '-', DigitChar(w.date / 10), DigitChar(w.date % 10),
                             'T', DigitChar(w.hours / 10), DigitChar(w.hours % 10),
                             ':', DigitChar(w.minutes / 10), DigitChar(w.minutes % 10)]
  {
    Pad2Digits(w.month + 1);
    Pad2Digits(w.date);
    Pad2Digits(w.hours);
    Pad2Digits(w.minutes);
    FieldsLayout(Pad2(w.month + 1), Pad2(w.date), Pad2(w.hours), Pad2(w.minutes));
  }

  lemma FieldsLayout(mo: string, d: string, h: string, mi: string)
    requires |mo| == |d| == |h| == |mi| == 2
    ensures "-" + mo + "-" + d + "T" + h + ":" + mi
      == ['-', mo[0], mo[1], '-', d[0], d[1], 'T', h[0], h[1], ':', mi[0], mi[1]]
  {
  }

  lemma TwoDigitsDetermine(a: int, b: int)
    requires 0 <= a < 100 && 0 <= b < 100
    requires DigitChar(a / 10) == DigitChar(b / 10) && DigitChar(a % 10) == DigitChar(b % 10)
    ensures a == b
  {
  }

  /** Distinct wall-clock readings give distinct keys, and equal readings equal keys. */
  lemma KeyOfClockInjective(a: WallClock, b: WallClock)
    requires ValidClock(a) && ValidClock(b)
    ensures KeyOfClock(a) == KeyOfClock(b) <==> a == b
  {
    if KeyOfClock(a) == KeyOfClock(b) {
      KeyLayout(a);
      KeyLayout(b);
      var ya, yb := IntString(a.year), IntString(b.year);
      var ta, tb := ClockTail(a), ClockTail(b);
      assert |ya| == |yb|;
      assert ya == (ya + ta)[..|ya|] == (yb + tb)[..|yb|] == yb;
      assert ta == (ya + ta)[|ya|..] == (yb + tb)[|yb|..] == tb;
      IntStringInjective(a.year, b.year);
      assert ta[1] == tb[1] && ta[2] == tb[2] && ta[4] == tb[4] && ta[5] == tb[5];
      assert ta[7] == tb[7] && ta[8] == tb[8] && ta[10] == tb[10] && ta[11] == tb[11];
      TwoDigitsDetermine(a.month + 1, b.month + 1);
      TwoDigitsDetermine(a.date, b.date);
      TwoDigitsDetermine(a.hours, b.hours);
      TwoDigitsDetermine(a.minutes, b.minutes);
    }
  }

  /** Two instants share a key exactly when they fall in the same minute. */
  lemma KeyOfSameMinute(t1: int, t2: int)
    ensures KeyOf(t1) == KeyOf(t2) <==> MinuteNumber(t1) == MinuteNumber(t2)
  {
    WallClockValid(t1);
    WallClockValid(t2);
    KeyOfClockInjective(WallClockOf(t1), WallClockOf(t2));
    WallClockSameMinute(t1, t2);
  }

  /**
   * A key function tells instants apart exactly by their minute.  The weekly
   * expansion needs nothing else of getOccurrenceKey, so its definitions take
   * the key function as a parameter and are used with KeyOf.
   */
  ghost predicate SeparatesMinutes(keyOf: int -> string) {
    forall t1, t2 :: keyOf(t1) == keyOf(t2) <==> MinuteNumber(t1) == MinuteNumber(t2)
  }

  lemma KeyOfSeparatesMinutes()
    ensures SeparatesMinutes(KeyOf)
  {
    forall t1, t2
      ensures KeyOf(t1) == KeyOf(t2) <==> MinuteNumber(t1) == MinuteNumber(t2)
    {
      KeyOfSameMinute(t1, t2);
    }
  }
}
