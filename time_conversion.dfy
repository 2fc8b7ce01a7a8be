/** `TimeConversion`: how far away a train is, as the board says it. Both
    operations take the number of seconds from now until the train's time,
    which the source computes as `(train_date - now).total_seconds()`. */
module TimeConversion {
  import opened Wrappers
  import opened BoardText

  /** `time_is_soon`: the train is due within the next half minute, or has
      already passed. */
  function TimeIsSoon(secondsUntil: int): (soon: bool)
    ensures soon <==> secondsUntil < 30
    ensures soon ==> RelativeTimeFromNow(secondsUntil) == "Arriving"
  {
    secondsUntil < 30
  }

  /** `relative_time_from_now`: "Arriving" within a minute, otherwise the
      rounded minutes, split into hours and minutes from an hour on. */
  function RelativeTimeFromNow(secondsUntil: int): (text: string)
    ensures text != ""
  {
    if secondsUntil <= 60 then "Arriving"
    else
      var minutes := Round60(secondsUntil);
      if minutes < 60 then MinutesText(minutes)
      else HoursText(minutes / 60, minutes % 60)
  }

  /** The text reads back as "Arriving" within a minute and otherwise as the
      number of minutes `round(seconds / 60)`. The reader accepts exactly
      one text per reading (`ReadBoardInjective`), so this
      fixes the text: "<m>min" below an hour, "<h>h" or "<h>h <e>min" with
      1 to 59 extra minutes from an hour on. */
  lemma RelativeTimeReadsBack(secondsUntil: int)
    ensures ReadBoard(RelativeTimeFromNow(secondsUntil)) ==
      Some(if secondsUntil <= 60 then Arriving else InMinutes(Round60(secondsUntil)))
  {
    if secondsUntil > 60 {
      var minutes := Round60(secondsUntil);
      if minutes < 60 {
        ReadMinutesText(minutes);
      } else {
        ReadHoursText(minutes / 60, minutes % 60);
      }
    }
  }

  /** The board says "Arriving" exactly when the train is at most a minute
      away, including trains whose time has passed. */
  lemma ArrivingExactlyWithinAMinute(secondsUntil: int)
    ensures RelativeTimeFromNow(secondsUntil) == "Arriving" <==> secondsUntil <= 60
  {
    RelativeTimeReadsBack(secondsUntil);
  }

  /** Any other text shows at least one minute, and it is within half a
      minute of the true wait, a tie going to the even count. */
  lemma CountdownAccuracy(secondsUntil: int)
    requires secondsUntil > 60
    ensures var reading := ReadBoard(RelativeTimeFromNow(secondsUntil));
      reading.Some? && reading.value.InMinutes? && reading.value.minutes >= 1 &&
      -30 <= secondsUntil - 60 * reading.value.minutes <= 30 &&
      (secondsUntil - 60 * reading.value.minutes == 30 || secondsUntil - 60 * reading.value.minutes == -30 ==>
        reading.value.minutes % 2 == 0)
  {
    RelativeTimeReadsBack(secondsUntil);
  }

  /** Being shown as arriving does not make a train soon: one 45 s away is
      arriving but not soon. */
  lemma ArrivingIsNotAlwaysSoon()
    ensures !TimeIsSoon(45) && RelativeTimeFromNow(45) == "Arriving"
  {
  }

  /** The minute countdowns of the unit tests. */
  lemma MinuteExamples()
    ensures RelativeTimeFromNow(-60) == "Arriving"
    ensures RelativeTimeFromNow(30) == "Arriving"
    ensures RelativeTimeFromNow(60) == "Arriving"
    ensures RelativeTimeFromNow(70) == "1min"
    ensures RelativeTimeFromNow(110) == "2min"
    ensures RelativeTimeFromNow(130) == "2min"
  {
  }

  /** The hour countdowns of the unit tests. */
  lemma HourExamples()
    ensures RelativeTimeFromNow(3610) == "1h"
    ensures RelativeTimeFromNow(3670) == "1h 1min"
  {
  }

  /** Python's `round` sends a halfway minute count to the even neighbour:
      90 s and 150 s both show as 2 minutes, 210 s as 4. */
  lemma HalfwayExamples()
    ensures RelativeTimeFromNow(90) == "2min"
    ensures RelativeTimeFromNow(150) == "2min"
    ensures RelativeTimeFromNow(210) == "4min"
  {
  }
}
