/** String order on archive dates (line 106 of scripts/archived-agent-notes.ts) against calendar order. */
module DateOrder {
  import opened CalendarDate

  /** `<` on strings: by the first character that differs. */
  predicate Less(a: string, b: string)
    decreases |a|
  {
    b != "" && (a == "" || a[0] < b[0] || (a[0] == b[0] && Less(a[1..], b[1..])))
  }

  lemma {:induction false} LessByParts(p: string, q: string, s: string, t: string)
    requires |p| == |q|
    ensures Less(p + s, q + t) <==> Less(p, q) || (p == q && Less(s, t))
    decreases |p|
  {
    if p == "" {
      assert p + s == s && q + t == t;
    } else {
      assert (p + s)[1..] == p[1..] + s && (q + t)[1..] == q[1..] + t;
      assert p == [p[0]] + p[1..] && q == [q[0]] + q[1..];
      LessByParts(p[1..], q[1..], s, t);
    }
  }

  /** On equally long runs of digits, string order is numeric order. */
  lemma {:induction false} DigitsCompare(a: string, b: string)
    requires |a| == |b| && Digits(a) && Digits(b)
    ensures Less(a, b) <==> Number(a) < Number(b)
    ensures a == b <==> Number(a) == Number(b)
    decreases |a|
  {
    if a != "" {
      var n := |a| - 1;
      var a0, b0, a1, b1 := a[..n], b[..n], [a[n]], [b[n]];
      DigitsCompare(a0, b0);
      LessByParts(a0, b0, a1, b1);
      assert a == a0 + a1 && b == b0 + b1;
      assert Less(a1, b1) <==> a[n] < b[n];
    }
  }

  /** Strings of the shape of a date compare by year, then month, then day, whether there are such days or not. */
  lemma LessByFields(a: string, b: string)
    requires Shaped(a) && Shaped(b)
    ensures Less(a, b) <==>
              || Year(a) < Year(b)
              || (Year(a) == Year(b) && (Month(a) < Month(b) || (Month(a) == Month(b) && Day(a) < Day(b))))
  {
    LessByParts(a[..4], b[..4], a[4..], b[4..]);
    LessByParts("-", "-", a[5..], b[5..]);
    LessByParts(a[5..7], b[5..7], a[7..], b[7..]);
    LessByParts("-", "-", a[8..], b[8..]);
    DigitsCompare(a[..4], b[..4]);
    DigitsCompare(a[5..7], b[5..7]);
    DigitsCompare(a[8..], b[8..]);
    Pieces(a);
    Pieces(b);
  }

  lemma Pieces(a: string)
    requires Shaped(a)
    ensures a == a[..4] + a[4..] && a[4..] == "-" + a[5..] && a[5..] == a[5..7] + a[7..] && a[7..] == "-" + a[8..]
  {}

  /** Comparing accepted dates as strings compares the days they name. */
  lemma StringOrderIsCalendarOrder(a: string, b: string)
    requires ValidDate(a) && ValidDate(b)
    ensures Less(a, b) <==> UtcDay(Year(a), Month(a) - 1, Day(a)) < UtcDay(Year(b), Month(b) - 1, Day(b))
  {
    ValidDateExactly(a);
    ValidDateExactly(b);
    LessByFields(a, b);
    var x, y := Utc(Year(a), Month(a) - 1, Day(a)), Utc(Year(b), Month(b) - 1, Day(b));
    assert UtcDay(Year(a), Month(a) - 1, Day(a)) == DayNumber(x);
    assert UtcDay(Year(b), Month(b) - 1, Day(b)) == DayNumber(y);
    EarlierIsLower(x, y);
    EarlierIsLower(y, x);
  }

  /**
   The check on the archive date: the date in the file's name is only known to have the shape of one. The
   archive date is taken to predate it exactly when it comes before every valid date that does not.
   */
  lemma PredatesExactly(archived: string, named: string)
    requires ValidDate(archived) && Shaped(named)
    ensures Less(archived, named) <==>
              forall x :: ValidDate(x) && !Less(x, named) ==>
                UtcDay(Year(archived), Month(archived) - 1, Day(archived)) < UtcDay(Year(x), Month(x) - 1, Day(x))
  {
    LessByFields(archived, named);
    if Less(archived, named) {
      forall x | ValidDate(x) && !Less(x, named)
        ensures UtcDay(Year(archived), Month(archived) - 1, Day(archived)) < UtcDay(Year(x), Month(x) - 1, Day(x))
      {
        LessByFields(x, named);
        LessByFields(archived, x);
        StringOrderIsCalendarOrder(archived, x);
      }
    } else {
      assert ValidDate(archived) && !Less(archived, named);
    }
  }
}
