/**
 * Input checks for the trip form: a location must be at least two visible
 * characters drawn from a small alphabet, and a date range must start no
 * earlier than today, end within a year and last at most 30 days.
 */
module Validation {
  import opened Text

  // ---------------------------------------------------------------------
  // Locations
  // ---------------------------------------------------------------------

  /** The class `[a-zA-Z0-9\s\-',.]`. */
  predicate LocationChar(c: char) {
    IsAsciiLetter(c) || IsDigit(c) || IsSpace(c) || c == '-' || c == '\'' || c == ',' || c == '.'
  }

  /** `re.findall(r'[^a-zA-Z0-9\s\-\',.]', s)`: the characters outside the class, in order. */
  function InvalidChars(s: string): (r: string)
    ensures |r| <= |s|
    ensures forall k :: 0 <= k < |r| ==> !LocationChar(r[k])
  {
    if s == [] then []
    else (if LocationChar(s[0]) then [] else [s[0]]) + InvalidChars(s[1..])
  }

  /** No invalid character is found exactly when every character is in the class. */
  lemma {:induction false} NoInvalidChars(s: string)
    ensures InvalidChars(s) == [] <==> forall k :: 0 <= k < |s| ==> LocationChar(s[k])
  {
    if s != [] {
      NoInvalidChars(s[1..]);
      if InvalidChars(s) == [] {
        forall k | 0 <= k < |s| ensures LocationChar(s[k]) {
          if k > 0 { assert s[k] == s[1..][k - 1]; }
        }
      }
    }
  }

  /** `is_valid_location`. */
  predicate IsValidLocation(s: string) {
    if s == [] || |Strip(s)| < 2 then false
    else InvalidChars(s) == []
  }

  /** Valid exactly when the stripped text has two characters or more and every character is allowed. */
  lemma ValidLocationIff(s: string)
    ensures IsValidLocation(s) <==> |Strip(s)| >= 2 && forall k :: 0 <= k < |s| ==> LocationChar(s[k])
  {
    NoInvalidChars(s);
  }

  /** "At least two after stripping" means two distinct non-whitespace characters. */
  lemma {:induction false} StripHasTwo(s: string)
    ensures |Strip(s)| >= 2 <==> exists i, j :: 0 <= i < j < |s| && !IsSpace(s[i]) && !IsSpace(s[j])
  {
    var r := Strip(s);
    var a := SpanSpace(s, 0);
    if |r| >= 2 {
      assert !IsSpace(s[a]) && !IsSpace(s[a + |r| - 1]);
    }
    if exists i, j :: 0 <= i < j < |s| && !IsSpace(s[i]) && !IsSpace(s[j]) {
      var i, j :| 0 <= i < j < |s| && !IsSpace(s[i]) && !IsSpace(s[j]);
      assert a <= i < a + |r| && a <= j < a + |r|;
    }
  }

  /** A valid location holds two visible characters, and every character is allowed. */
  lemma ValidLocationMeaning(s: string)
    ensures IsValidLocation(s) <==>
      && (exists i, j :: 0 <= i < j < |s| && !IsSpace(s[i]) && !IsSpace(s[j]))
      && forall k :: 0 <= k < |s| ==> LocationChar(s[k])
  {
    ValidLocationIff(s);
    StripHasTwo(s);
  }

  // ---------------------------------------------------------------------
  // Date ranges, as day numbers
  // ---------------------------------------------------------------------

  const MaxAheadDays: int := 365
  const MaxTripDays: int := 30

  /** `is_valid_date_range`, with `today` given rather than read from the clock. */
  predicate IsValidDateRange(start: int, end: int, today: int) {
    && start >= today
    && end >= start
    && end <= today + MaxAheadDays
    && end - start <= MaxTripDays
  }

  /**
   * The range lies between today and a year ahead, and the end is no later
   * than 30 days after the start.
   */
  lemma ValidRangeBounds(start: int, end: int, today: int)
    ensures IsValidDateRange(start, end, today) <==>
      today <= start <= end <= today + MaxAheadDays && end <= start + MaxTripDays
  {
  }

  /** Only the distances between the three days matter. */
  lemma ValidRangeShift(start: int, end: int, today: int, d: int)
    ensures IsValidDateRange(start + d, end + d, today + d) == IsValidDateRange(start, end, today)
  {
  }

  /** A range inside a valid range is valid. */
  lemma ValidRangeShrinks(start: int, end: int, start': int, end': int, today: int)
    requires IsValidDateRange(start, end, today)
    requires start <= start' <= end' <= end
    ensures IsValidDateRange(start', end', today)
  {
  }
}
