/**
 * The string operations the pipeline borrows from Python: `str.strip()`
 * with no argument, `sep.join(parts)` and plain concatenation of pieces.
 */
module Text {

  /** Python's `str.isspace()` for one character: exactly the characters that
      `str.strip()` removes when it is called without an argument. */
  predicate IsSpace(c: char)
  {
    || ('\t' <= c <= '\r')                // \t \n \v \f \r
    || ('\U{1c}' <= c <= '\U{1f}')        // file, group, record and unit separators
    || c == ' '
    || c == '\U{85}' || c == '\U{a0}' || c == '\U{1680}'
    || ('\U{2000}' <= c <= '\U{200a}')
    || c == '\U{2028}' || c == '\U{2029}' || c == '\U{202f}' || c == '\U{205f}'
    || c == '\U{3000}'
  }

  predicate AllSpace(s: string)
  {
    forall i :: 0 <= i < |s| ==> IsSpace(s[i])
  }

  /** Neither end of `s` is whitespace: what `str.strip()` leaves. */
  predicate IsStripped(s: string)
  {
    s == [] || (!IsSpace(s[0]) && !IsSpace(s[|s| - 1]))
  }

  /** The number of whitespace characters `s.lstrip()` removes. */
  function LeadingSpaces(s: string): (n: nat)
    ensures n <= |s|
    ensures forall i :: 0 <= i < n ==> IsSpace(s[i])
    ensures n < |s| ==> !IsSpace(s[n])
    decreases |s|
  {
    if |s| > 0 && IsSpace(s[0]) then
      var n := 1 + LeadingSpaces(s[1..]);
      assert forall i :: 1 <= i < n ==> s[i] == s[1..][i - 1];
      n
    else 0
  }

  /** The number of whitespace characters `s.rstrip()` removes. */
  function TrailingSpaces(s: string): (n: nat)
    ensures n <= |s|
    ensures forall i :: |s| - n <= i < |s| ==> IsSpace(s[i])
    ensures n < |s| ==> !IsSpace(s[|s| - 1 - n])
    decreases |s|
  {
    if |s| > 0 && IsSpace(s[|s| - 1]) then 1 + TrailingSpaces(s[..|s| - 1]) else 0
  }

  /** `s.strip()`: the leading and then the trailing whitespace removed. */
  function Strip(s: string): (r: string)
    ensures IsStripped(r) && |r| <= |s|
  {
    var lead := LeadingSpaces(s);
    var trail := TrailingSpaces(s[lead..]);
    s[lead..|s| - trail]
  }

  /** Stripping removes whitespace from the two ends and nothing else: the
      result is the part of `s` from position `lead` on, with only whitespace
      before it and only whitespace after it. */
  lemma StripRemovesOnlyEnds(s: string) returns (lead: nat)
    ensures lead + |Strip(s)| <= |s|
    ensures forall i :: 0 <= i < |Strip(s)| ==> Strip(s)[i] == s[lead + i]
    ensures forall i :: 0 <= i < lead ==> IsSpace(s[i])
    ensures forall i :: lead + |Strip(s)| <= i < |s| ==> IsSpace(s[i])
  {
    lead := LeadingSpaces(s);
    var rest := s[lead..];
    var trail := TrailingSpaces(rest);
    forall i | lead + |Strip(s)| <= i < |s| ensures IsSpace(s[i]) {
      assert s[i] == rest[i - lead];
    }
  }

  /** A string strips to nothing exactly when it is all whitespace. */
  lemma StripEmptyIff(s: string)
    ensures Strip(s) == [] <==> AllSpace(s)
  {
    var lead := StripRemovesOnlyEnds(s);
    if Strip(s) != [] {
      assert s[lead] == Strip(s)[0];
    }
  }

  /** Stripping a string that is already stripped changes nothing. */
  lemma StripStripped(s: string)
    requires IsStripped(s)
    ensures Strip(s) == s
  {
    var lead := StripRemovesOnlyEnds(s);
    var r := Strip(s);
    if s != [] {
      assert lead == 0 && lead + |r| == |s|;
    }
  }

  /** A stripped string is all whitespace only when it is empty. */
  lemma StrippedBlankIsEmpty(s: string)
    requires IsStripped(s)
    ensures AllSpace(s) <==> s == []
  {
    if s != [] { assert !IsSpace(s[0]); }
  }

  /** Python's `sep.join(parts)`. */
  function Join(sep: string, parts: seq<string>): string
    decreases |parts|
  {
    if |parts| == 0 then ""
    else if |parts| == 1 then parts[0]
    else parts[0] + sep + Join(sep, parts[1..])
  }

  /** With a whitespace separator, the joined string is all whitespace exactly
      when every part is. */
  lemma {:induction false} JoinAllSpace(sep: string, parts: seq<string>)
    requires AllSpace(sep)
    ensures AllSpace(Join(sep, parts)) <==> forall i :: 0 <= i < |parts| ==> AllSpace(parts[i])
    decreases |parts|
  {
    if |parts| > 1 {
      JoinAllSpace(sep, parts[1..]);
      var rest := Join(sep, parts[1..]);
      var whole := parts[0] + sep + rest;
      assert Join(sep, parts) == whole;
      if AllSpace(whole) {
        assert AllSpace(parts[0]) by {
          forall i | 0 <= i < |parts[0]| ensures IsSpace(parts[0][i]) { assert whole[i] == parts[0][i]; }
        }
        assert AllSpace(rest) by {
          forall i | 0 <= i < |rest| ensures IsSpace(rest[i]) {
            assert whole[|parts[0]| + |sep| + i] == rest[i];
          }
        }
        forall i | 0 <= i < |parts| ensures AllSpace(parts[i]) {
          if i > 0 { assert parts[i] == parts[1..][i - 1]; }
        }
      } else {
        assert !AllSpace(parts[0]) || !AllSpace(rest) by {
          var j :| 0 <= j < |whole| && !IsSpace(whole[j]);
          if j < |parts[0]| { assert whole[j] == parts[0][j]; }
          else if j >= |parts[0]| + |sep| { assert whole[j] == rest[j - |parts[0]| - |sep|]; }
        }
        if !AllSpace(rest) {
          var i :| 0 <= i < |parts[1..]| && !AllSpace(parts[1..][i]);
          assert parts[i + 1] == parts[1..][i];
        }
      }
    }
  }

  /** The pieces laid end to end, with no separator. */
  function Concat(pieces: seq<string>): string
    decreases |pieces|
  {
    if pieces == [] then "" else pieces[0] + Concat(pieces[1..])
  }
}
