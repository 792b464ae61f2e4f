/** Small helpers shared by the search and upload endpoints: an optional value,
    the "indices at or above a threshold" filter both search paths apply to their
    scores, and Python's `str(n)` for the counts in response messages. */
module Common {

  datatype Option<+T> = None | Some(value: T)

  /** The positions of `s` whose score is at least `t`, in increasing order:
      the entries a `for` loop with `if score >= t: append(...)` keeps. */
  function Above(s: seq<real>, t: real): (r: seq<nat>)
    ensures forall j :: 0 <= j < |r| ==> r[j] < |s|
    decreases |s|
  {
    if s == [] then []
    else
      var prefix := s[..|s| - 1];
      Above(prefix, t) + (if s[|s| - 1] >= t then [|s| - 1] else [])
  }

  /** Above keeps exactly the positions scoring at least `t`, each once, in
      increasing order. */
  lemma {:induction false} AboveExactly(s: seq<real>, t: real)
    ensures forall j :: 0 <= j < |Above(s, t)| ==> s[Above(s, t)[j]] >= t
    ensures forall j, k :: 0 <= j < k < |Above(s, t)| ==> Above(s, t)[j] < Above(s, t)[k]
    ensures forall i :: 0 <= i < |s| && s[i] >= t ==> i in Above(s, t)
    decreases |s|
  {
    if s != [] {
      var prefix := s[..|s| - 1];
      assert forall i :: 0 <= i < |prefix| ==> prefix[i] == s[i];
      AboveExactly(prefix, t);
    }
  }

  /** Extending the scores by one entry extends the kept positions by that
      entry's position exactly when it clears the threshold. */
  lemma AboveSnoc(s: seq<real>, x: real, t: real)
    ensures Above(s + [x], t) == Above(s, t) + (if x >= t then [|s|] else [])
  {
    assert (s + [x])[..|s + [x]| - 1] == s;
  }

  /** The decimal digit character for `d`. */
  function DigitChar(d: nat): (c: char)
    requires d < 10
    ensures '0' <= c <= '9' && c as int - '0' as int == d
  {
    ('0' as int + d) as char
  }

  predicate IsDigits(s: string)
  {
    forall i :: 0 <= i < |s| ==> '0' <= s[i] <= '9'
  }

  /** Python's `str(n)` for a non-negative integer: decimal digits, no sign,
      no leading zero. */
  function NatToString(n: nat): (s: string)
    ensures |s| >= 1 && IsDigits(s)
    ensures |s| > 1 ==> s[0] != '0'
    decreases n
  {
    if n < 10 then [DigitChar(n)] else NatToString(n / 10) + [DigitChar(n % 10)]
  }

  /** The number a string of decimal digits denotes (the inverse of NatToString). */
  function DigitsValue(s: string): nat
    requires IsDigits(s)
    decreases |s|
  {
    if s == [] then 0
    else DigitsValue(s[..|s| - 1]) * 10 + (s[|s| - 1] as int - '0' as int)
  }

  /** Reading back the digits gives the count that was written. */
  lemma {:induction false} NatToStringRoundTrip(n: nat)
    ensures DigitsValue(NatToString(n)) == n
    decreases n
  {
    if n >= 10 {
      var s := NatToString(n);
      assert s[..|s| - 1] == NatToString(n / 10);
      NatToStringRoundTrip(n / 10);
    }
  }

  /** Different counts give different messages. */
  lemma NatToStringInjective(m: nat, n: nat)
    requires NatToString(m) == NatToString(n)
    ensures m == n
  {
    NatToStringRoundTrip(m);
    NatToStringRoundTrip(n);
  }
}
