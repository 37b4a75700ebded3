/**
  Date fields of the Swing forms.  A field is read as `getText().trim()`
  and, when not empty, parsed with `yyyy-MM-dd` into midnight of its day;
  the checks then compare `java.util.Date` instants with `after`/`before`.
*/
module FormDates {
  import opened Calendar

  /** A date field after trimming: empty, parsed into a day, or text that does not parse. */
  datatype DateField = Blank | Given(day: int) | Unparsable

  /** A date that may not lie in the future: it must parse, and must not be `after(new Date())`. */
  function NotInFuture(field: DateField, nowMs: int): bool {
    match field
    case Blank => true
    case Given(day) => !(StartOfDay(day) > nowMs)
    case Unparsable => false
  }

  /** In days: a given date passes exactly when it is today or earlier. */
  lemma NotInFutureInDays(field: DateField, nowMs: int)
    ensures NotInFuture(field, nowMs) <==> !field.Unparsable? && (field.Given? ==> field.day <= DayOf(nowMs))
  {
    if field.Given? {
      AfterNowIffLaterDay(field.day, nowMs);
    }
  }

  /**
    A pair of dates checked in sequence: the first may not lie in the future,
    the second must parse, and when both are given the second may not be
    `before` the first.
  */
  function DatesInOrder(first: DateField, second: DateField, nowMs: int): bool {
    && NotInFuture(first, nowMs)
    && !second.Unparsable?
    && (first.Given? && second.Given? ==> !(StartOfDay(second.day) < StartOfDay(first.day)))
  }

  /** In days: the same day is allowed, and the order is only checked when the first date is given. */
  lemma DatesInOrderInDays(first: DateField, second: DateField, nowMs: int)
    ensures DatesInOrder(first, second, nowMs) <==>
              && !first.Unparsable?
              && (first.Given? ==> first.day <= DayOf(nowMs))
              && !second.Unparsable?
              && (first.Given? && second.Given? ==> second.day >= first.day)
  {
    NotInFutureInDays(first, nowMs);
    if first.Given? && second.Given? {
      if second.day >= first.day {
        MulMonotone(first.day, second.day);
      } else {
        MulMonotone(second.day + 1, first.day);
      }
    }
  }
}
