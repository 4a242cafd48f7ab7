/** The phone-column reformatting of the row loop: a raw value that has no
    hyphen and is not the header cell is spliced into `first3-next4-rest`;
    anything else passes through unchanged. */
module Phone {
  import opened Wrappers
  import opened Text

  /** The Korean header text "phone number" that marks the header row. */
  const Sentinel: string := "\U{C804}\U{D654}\U{BC88}\U{D638}"

  /** The value is neither hyphenated already nor the header cell. */
  predicate NeedsSplice(raw: string): (b: bool)
    ensures b <==> '-' !in raw && !Contains(raw, Sentinel)
  {
    ContainsChar(raw, '-');
    !Contains(raw, "-") && !Contains(raw, Sentinel)
  }

  /** The splice with the hyphens at positions 3 and 8 removed again. */
  function Unformat(t: string): string
    requires |t| >= 9
  {
    t[..3] + t[4..8] + t[9..]
  }

  /** The phone value a row contributes, or `None` when the splice would
      slice past the end of a value shorter than 7 characters (a panic that
      aborts the run). */
  function FormatPhone(raw: string): (r: Option<string>)
    ensures r.None? <==> NeedsSplice(raw) && |raw| < 7
    ensures !NeedsSplice(raw) ==> r == Some(raw)
    ensures NeedsSplice(raw) && r.Some? ==>
      |r.value| == |raw| + 2 && r.value[3] == '-' && r.value[8] == '-' && Unformat(r.value) == raw
  {
    if NeedsSplice(raw) then
      if |raw| < 7 then None
      else
        var t := raw[..3] + "-" + raw[3..7] + "-" + raw[7..];
        assert t[..3] + t[4..8] + t[9..] == raw by {
          assert t[..3] == raw[..3] && t[4..8] == raw[3..7] && t[9..] == raw[7..];
          assert raw == raw[..3] + raw[3..7] + raw[7..];
        }
        Some(t)
    else Some(raw)
  }

  /** A spliced value has exactly two hyphens, at positions 3 and 8. */
  lemma SpliceHyphens(raw: string)
    requires NeedsSplice(raw) && |raw| >= 7
    ensures forall i :: 0 <= i < |FormatPhone(raw).value| ==>
      (FormatPhone(raw).value[i] == '-' <==> i == 3 || i == 8)
  {
    ContainsChar(raw, '-');
    var t := FormatPhone(raw).value;
    assert t == raw[..3] + "-" + raw[3..7] + "-" + raw[7..];
    forall i | 0 <= i < |t| && i != 3 && i != 8
      ensures t[i] != '-'
    {
      if i < 3 { assert t[i] == raw[i]; }
      else if i < 8 { assert t[i] == raw[i - 1]; }
      else { assert t[i] == raw[i - 2]; }
    }
  }

  /** Reformatting is idempotent: a formatted value is never spliced again. */
  lemma FormatIdempotent(raw: string)
    requires FormatPhone(raw).Some?
    ensures FormatPhone(FormatPhone(raw).value) == FormatPhone(raw)
  {
    var t := FormatPhone(raw).value;
    if NeedsSplice(raw) {
      ContainsChar(t, '-');
    }
  }

  /** A value holding a hyphen is never spliced, whatever its length. */
  lemma HyphenatedPassesThrough(raw: string)
    requires '-' in raw
    ensures FormatPhone(raw) == Some(raw)
  {
    ContainsChar(raw, '-');
  }

  /** Two examples: a ten-digit mobile number gets a three-digit
      tail and an eleven-digit one a four-digit tail. */
  lemma FormatExamples()
    ensures FormatPhone("0101234567") == Some("010-1234-567")
    ensures FormatPhone("01012345678") == Some("010-1234-5678")
  {
    SpliceDigits("0101234567", "010-1234-567");
    SpliceDigits("01012345678", "010-1234-5678");
  }

  /** A digit string of seven or more characters is spliced 3-4-rest. */
  lemma SpliceDigits(digits: string, formatted: string)
    requires forall i :: 0 <= i < |digits| ==> '0' <= digits[i] <= '9'
    requires |digits| >= 7
    requires formatted == digits[..3] + "-" + digits[3..7] + "-" + digits[7..]
    ensures FormatPhone(digits) == Some(formatted)
  {
    ContainsChar(digits, '-');
    NoSentinelInDigits(digits);
  }

  /** A string of ASCII digits never holds the header text. */
  lemma NoSentinelInDigits(s: string)
    requires forall i :: 0 <= i < |s| ==> '0' <= s[i] <= '9'
    ensures !Contains(s, Sentinel)
  {
    forall j | 0 <= j <= |s|
      ensures !MatchAt(s, Sentinel, j)
    {
      if j + |Sentinel| <= |s| {
        assert s[j..j + |Sentinel|][0] == s[j];
      }
    }
  }
}
