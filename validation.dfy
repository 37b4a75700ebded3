/**
  The validators of `ValidationUtil`: membership in the fixed value lists,
  and the blood unit ID, numeric and alphabetic formats.  Java's `null`
  argument does not exist here; the empty string is rejected by every one.
  Email and phone validation are regular-expression matches that the model
  leaves uninterpreted (the forms take them as parameters).
*/
module Validation {

  const BloodGroups: seq<string> := ["A+", "A-", "B+", "B-", "AB+", "AB-", "O+", "O-"]
  const Genders: seq<string> := ["Male", "Female", "Other"]
  const Components: seq<string> := ["whole blood", "plasma", "platelets", "red cells"]
  const UnitStatuses: seq<string> := ["available", "reserved", "issued", "discarded"]
  const RequestStatuses: seq<string> := ["pending", "fulfilled", "partially fulfilled", "cancelled"]
  const Priorities: seq<string> := ["normal", "urgent", "emergency"]

  /** The for-loop with early return over a list of valid values, by exact `equals`. */
  function ListContains(values: seq<string>, s: string): (found: bool)
    ensures found <==> s in values
  {
    if values == [] then false
    else if values[0] == s then true
    else ListContains(values[1..], s)
  }

  function IsValidBloodGroup(s: string): (ok: bool)
    ensures ok <==> s in BloodGroups
    ensures ok <==> (s == "A+" || s == "A-" || s == "B+" || s == "B-"
                     || s == "AB+" || s == "AB-" || s == "O+" || s == "O-")
  {
    s != "" && ListContains(BloodGroups, s)
  }

  function IsValidGender(s: string): (ok: bool)
    ensures ok <==> s == "Male" || s == "Female" || s == "Other"
  {
    s != "" && ListContains(Genders, s)
  }

  function IsValidBloodComponent(s: string): (ok: bool)
    ensures ok <==> s == "whole blood" || s == "plasma" || s == "platelets" || s == "red cells"
  {
    s != "" && ListContains(Components, s)
  }

  function IsValidBloodUnitStatus(s: string): (ok: bool)
    ensures ok <==> s == "available" || s == "reserved" || s == "issued" || s == "discarded"
  {
    s != "" && ListContains(UnitStatuses, s)
  }

  function IsValidRequestStatus(s: string): (ok: bool)
    ensures ok <==> s == "pending" || s == "fulfilled" || s == "partially fulfilled" || s == "cancelled"
  {
    s != "" && ListContains(RequestStatuses, s)
  }

  function IsValidRequestPriority(s: string): (ok: bool)
    ensures ok <==> s == "normal" || s == "urgent" || s == "emergency"
  {
    s != "" && ListContains(Priorities, s)
  }

  // ---------------------------------------------------------------------
  // Formats given by regular expressions
  // ---------------------------------------------------------------------

  /** One position of an anchored regular expression without repetition. */
  datatype CharClass = Literal(c: char) | Digit | Letter | LetterOrSpace

  predicate InClass(k: CharClass, c: char) {
    match k
    case Literal(x) => c == x
    case Digit => '0' <= c <= '9'
    case Letter => ('a' <= c <= 'z') || ('A' <= c <= 'Z')
    case LetterOrSpace => ('a' <= c <= 'z') || ('A' <= c <= 'Z') || c == ' '
  }

  /** `Matcher.matches()` for a pattern that is a fixed sequence of classes. */
  function MatchesFixed(pattern: seq<CharClass>, s: string): (m: bool)
    ensures m <==> |s| == |pattern| && forall i :: 0 <= i < |s| ==> InClass(pattern[i], s[i])
  {
    if pattern == [] then s == []
    else s != [] && InClass(pattern[0], s[0]) && MatchesFixed(pattern[1..], s[1..])
  }

  /** `Matcher.matches()` for `^[k]+$`. */
  function MatchesRepeated(k: CharClass, s: string): (m: bool)
    ensures m <==> |s| > 0 && forall i :: 0 <= i < |s| ==> InClass(k, s[i])
  {
    if |s| == 1 then InClass(k, s[0])
    else s != [] && InClass(k, s[0]) && MatchesRepeated(k, s[1..])
  }

  /** `^BU-\d{8}-\d{4}$`, position by position. */
  const UnitIdPattern: seq<CharClass> :=
    [Literal('B'), Literal('U'), Literal('-'),
     Digit, Digit, Digit, Digit, Digit, Digit, Digit, Digit,
     Literal('-'),
     Digit, Digit, Digit, Digit]

  predicate AllDigits(s: string) {
    forall i :: 0 <= i < |s| ==> '0' <= s[i] <= '9'
  }

  function IsValidBloodUnitId(s: string): (ok: bool)
    ensures ok ==> |s| == 16
    ensures ok <==> |s| == 16 && s[..3] == "BU-" && AllDigits(s[3..11]) && s[11] == '-' && AllDigits(s[12..])
  {
    var ok := s != "" && MatchesFixed(UnitIdPattern, s);
    assert ok ==> s[..3] == "BU-" by {
      if ok { assert s[0] == 'B' && s[1] == 'U' && s[2] == '-'; }
    }
    assert ok ==> AllDigits(s[3..11]) by {
      if ok {
        forall i | 0 <= i < 8 ensures '0' <= s[3..11][i] <= '9' { assert InClass(UnitIdPattern[3 + i], s[3 + i]); }
      }
    }
    assert ok ==> AllDigits(s[12..]) by {
      if ok {
        forall i | 0 <= i < 4 ensures '0' <= s[12..][i] <= '9' { assert InClass(UnitIdPattern[12 + i], s[12 + i]); }
      }
    }
    assert (|s| == 16 && s[..3] == "BU-" && AllDigits(s[3..11]) && s[11] == '-' && AllDigits(s[12..])) ==> ok by {
      if |s| == 16 && s[..3] == "BU-" && AllDigits(s[3..11]) && s[11] == '-' && AllDigits(s[12..]) {
        forall i | 0 <= i < 16 ensures InClass(UnitIdPattern[i], s[i]) {
          if i < 3 { assert s[i] == s[..3][i]; }
          else if i < 11 { assert s[i] == s[3..11][i - 3]; }
          else if i > 11 { assert s[i] == s[12..][i - 12]; }
        }
      }
    }
    ok
  }

  /** `^[0-9]+$` */
  function IsNumeric(s: string): (ok: bool)
    ensures ok <==> |s| > 0 && forall i :: 0 <= i < |s| ==> '0' <= s[i] <= '9'
  {
    s != "" && MatchesRepeated(Digit, s)
  }

  /** `^[a-zA-Z ]+$` */
  function IsAlphabetic(s: string): (ok: bool)
    ensures ok <==> |s| > 0 && forall i :: 0 <= i < |s| ==>
                      ('a' <= s[i] <= 'z') || ('A' <= s[i] <= 'Z') || s[i] == ' '
  {
    s != "" && MatchesRepeated(LetterOrSpace, s)
  }
}
