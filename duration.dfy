/** The duration label shown on each opportunity card. */
module Duration {
  import opened Text
  import opened Opportunities

  datatype Option<T> = None | Some(value: T)

  /** "-" when either date is empty or the end is before the start,
      otherwise "<d> day" for one day and "<d> days" for any other count. */
  function GetDuration(start: Date, end: Date): string {
    if start.iso == [] || end.iso == [] then "-"
    else
      var days := end.day - start.day;
      if days >= 0 then Decimal(days) + " day" + (if days != 1 then "s" else "") else "-"
  }

  /** Reads a label back: the number of days it shows, or `None` for "-". */
  function ParseDuration(shown: string): Option<nat> {
    var digits := DigitPrefix(shown);
    var unit := shown[|digits|..];
    if digits != [] && (unit == " day" || unit == " days") then Some(DecimalValue(digits)) else None
  }

  /** A digit string with no leading zero, unless it is the single digit 0. */
  predicate NoLeadingZero(digits: string) {
    |digits| == 1 || (digits != [] && digits[0] != '0')
  }

  predicate HasDuration(start: Date, end: Date) {
    start.iso != [] && end.iso != [] && end.day >= start.day
  }

  /** The label shows exactly the day difference when both dates are present
      and in order, and "-" otherwise; the number has no leading zero, and
      the unit is plural unless the difference is one day. */
  lemma DurationLabelRoundTrip(start: Date, end: Date)
    ensures ParseDuration(GetDuration(start, end))
            == if HasDuration(start, end) then Some(end.day - start.day) else None
    ensures GetDuration(start, end) == "-" <==> !HasDuration(start, end)
    ensures HasDuration(start, end) ==>
              (GetDuration(start, end)[|GetDuration(start, end)| - 1] == 's' <==> end.day - start.day != 1)
    ensures HasDuration(start, end) ==> NoLeadingZero(DigitPrefix(GetDuration(start, end)))
  {
    var shown := GetDuration(start, end);
    if HasDuration(start, end) {
      var days := end.day - start.day;
      var unit := " day" + (if days != 1 then "s" else "");
      assert shown == Decimal(days) + unit;
      DigitPrefixOf(Decimal(days), unit);
      assert shown[|Decimal(days)|..] == unit;
      DecimalRoundTrip(days);
      assert shown != "-" by {
        assert |shown| >= 5;
      }
    } else {
      assert shown == "-";
      assert DigitPrefix(shown) == [];
    }
  }
}
