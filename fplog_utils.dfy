/**
 * fplog/utils.cpp carries its own copy of timezone_from_minutes_to_iso8601,
 * written with _snprintf; it is modelled here separately and shown to agree
 * with the copy in common/utils.cpp.
 */
module FplogUtils {
  import opened Decimal
  import TextUtils

  /** The fplog/utils.cpp copy of the UTC-offset formatter. */
  function TimezoneToIso8601(bias: TextUtils.Int32): (r: string)
    ensures r == "" <==> bias == 0
    ensures r != "" ==> r[0] == (if TextUtils.CDiv(bias, 60) > 0 then '+' else '-')
  {
    if bias == 0 then ""
    else
      var hours := TextUtils.CDiv(bias, 60);
      var minutes := TextUtils.CMod(bias, 60);
      var sign := if hours > 0 then "+" else "-";
      if minutes != 0 then sign + TwoDigits(TextUtils.Abs(hours)) + TwoDigits(TextUtils.Abs(minutes))
      else sign + TwoDigits(TextUtils.Abs(hours))
  }

  /** Whole hours print as a sign and two hour digits only. */
  lemma WholeHours(h: int)
    requires 0 < h < 100 || -100 < h < 0
    ensures TimezoneToIso8601(h * 60) == (if h > 0 then "+" else "-") + TwoDigits(TextUtils.Abs(h))
    ensures |TimezoneToIso8601(h * 60)| == 3
  {
    assert TextUtils.CDiv(h * 60, 60) == h;
  }

  /** Both copies compute the same suffix for every bias. */
  lemma CopiesAgree(bias: TextUtils.Int32)
    ensures TimezoneToIso8601(bias) == TextUtils.TimezoneToIso8601(bias)
  {
  }
}
