/**
 * The closed table of time-to-live labels offered by the form, and the
 * case-insensitive lookup the publish handler performs on it.
 */
module Ttl {
  import opened Wrappers
  import opened Text

  /** `timeConversion`: lower-case label to seconds. */
  const TimeConversion: map<string, nat> :=
    map["two weeks" := 1209600, "week" := 604800, "day" := 86400, "hour" := 3600]

  /** `timeConversion[strings.ToLower(ttl)]`, with a missing label as `None`. */
  function TtlSeconds(choice: string): (r: Option<nat>)
    ensures r.Some? ==> r.value in TimeConversion.Values
    ensures r.Some? ==> 0 < r.value <= 1209600 && r.value % 3600 == 0
  {
    var key := AsciiLower(choice);
    if key in TimeConversion then Some(TimeConversion[key]) else None
  }

  /**
   * A label is accepted exactly when its lower-cased form is one of the four
   * entries, and each entry maps to its number of seconds.
   */
  lemma TtlTable(choice: string)
    ensures TtlSeconds(choice) == Some(1209600) <==> AsciiLower(choice) == "two weeks"
    ensures TtlSeconds(choice) == Some(604800) <==> AsciiLower(choice) == "week"
    ensures TtlSeconds(choice) == Some(86400) <==> AsciiLower(choice) == "day"
    ensures TtlSeconds(choice) == Some(3600) <==> AsciiLower(choice) == "hour"
    ensures TtlSeconds(choice).None? <==>
              AsciiLower(choice) !in {"two weeks", "week", "day", "hour"}
  {
  }

  /** The lookup ignores letter case: a label and its lower-cased form select the same duration. */
  lemma {:induction false} TtlCaseInsensitive(choice: string)
    ensures TtlSeconds(AsciiLower(choice)) == TtlSeconds(choice)
  {
    AsciiLowerIdempotent(choice);
  }

  /** The form's four labels are accepted in any letter case; anything else, such as "banana", is not. */
  lemma TtlLabels()
    ensures TtlSeconds("two weeks") == Some(1209600) && TtlSeconds("week") == Some(604800)
    ensures TtlSeconds("day") == Some(86400) && TtlSeconds("hour") == Some(3600)
    ensures TtlSeconds("Two Weeks") == Some(1209600) && TtlSeconds("DAY") == Some(86400)
    ensures TtlSeconds("banana").None?
  {
    assert AsciiLower("two weeks") == "two weeks";
    assert AsciiLower("Two Weeks") == "two weeks";
    assert AsciiLower("week") == "week";
    assert AsciiLower("day") == "day";
    assert AsciiLower("DAY") == "day";
    assert AsciiLower("hour") == "hour";
    assert |AsciiLower("banana")| == 6;
  }
}
