/** Strings as the planner uses them: JavaScript's `includes` substring test,
    the decimal rendering of the session counter, and the instance ids
    `<catalog id>-<counter>` built from them. */
module Ids {

  /** `sub` occurs in `s` starting at index `i`. */
  predicate OccursAt(s: string, sub: string, i: int) {
    0 <= i && i + |sub| <= |s| && s[i..i + |sub|] == sub
  }

  lemma OccursShift(s: string, sub: string)
    requires |s| > 0
    ensures forall i :: OccursAt(s[1..], sub, i) <==> (i >= 0 && OccursAt(s, sub, i + 1))
  {
  }

  /** JavaScript's `s.includes(sub)`: true exactly when `sub` occurs somewhere in `s`. */
  function Contains(s: string, sub: string): (r: bool)
    ensures r <==> exists i :: OccursAt(s, sub, i)
    decreases |s|
  {
    if |sub| > |s| then
      assert forall i :: !OccursAt(s, sub, i);
      false
    else if s[..|sub|] == sub then
      assert OccursAt(s, sub, 0);
      true
    else
      OccursShift(s, sub);
      assert !OccursAt(s, sub, 0);
      assert (exists i :: OccursAt(s, sub, i)) ==> exists i :: OccursAt(s[1..], sub, i) by {
        if exists i :: OccursAt(s, sub, i) {
          var i :| OccursAt(s, sub, i);
          assert OccursAt(s[1..], sub, i - 1);
        }
      }
      Contains(s[1..], sub)
  }

  /** A string that includes a non-empty pattern includes the pattern's first character. */
  lemma ContainsFirstChar(s: string, sub: string)
    requires |sub| > 0 && Contains(s, sub)
    ensures sub[0] in s
  {
  }

  /** Appending text never loses an occurrence. */
  lemma ContainsExtend(a: string, b: string, sub: string)
    requires Contains(a, sub)
    ensures Contains(a + b, sub)
  {
    var i :| OccursAt(a, sub, i);
    assert (a + b)[i..i + |sub|] == a[i..i + |sub|];
    assert OccursAt(a + b, sub, i);
  }

  predicate IsDigit(c: char) {
    '0' <= c <= '9'
  }

  predicate AllDigits(s: string) {
    forall i | 0 <= i < |s| :: IsDigit(s[i])
  }

  function DigitChar(d: int): char
    requires 0 <= d < 10
  {
    ('0' as int + d) as char
  }

  function DigitValue(c: char): int
    requires IsDigit(c)
  {
    c as int - '0' as int
  }

  /** The decimal text JavaScript produces for a non-negative integer in a template literal:
      at least one digit, digits only, no leading zero. */
  function DecimalString(n: nat): (s: string)
    ensures 1 <= |s| && AllDigits(s)
    ensures |s| > 1 ==> s[0] != '0'
    decreases n
  {
    if n < 10 then [DigitChar(n)] else DecimalString(n / 10) + [DigitChar(n % 10)]
  }

  /** Reads a string of digits as a decimal number (the empty string reads as 0). */
  function DecimalValue(s: string): nat
    requires AllDigits(s)
    decreases |s|
  {
    if |s| == 0 then 0 else DecimalValue(s[..|s| - 1]) * 10 + DigitValue(s[|s| - 1])
  }

  /** Reading back the decimal rendering of a number gives the number. */
  lemma {:induction false} DecimalRoundTrip(n: nat)
    ensures DecimalValue(DecimalString(n)) == n
    decreases n
  {
    if n >= 10 {
      var s := DecimalString(n / 10);
      DecimalRoundTrip(n / 10);
      assert (s + [DigitChar(n % 10)])[..|s|] == s;
    }
  }

  /** The id a placement receives: the selected item's id, a dash and the counter. */
  function InstanceId(base: string, counter: nat): (id: string)
    ensures |id| >= |base| + 2 && id[..|base|] == base && id[|base|] == '-'
    ensures AllDigits(id[|base| + 1..])
    ensures id[|base| + 1] == '0' ==> |id| == |base| + 2
  {
    var digits := DecimalString(counter);
    assert (base + "-" + digits)[|base| + 1..] == digits;
    base + "-" + digits
  }

  /** The digits after the item id and the dash spell the counter itself. */
  lemma InstanceIdValue(base: string, counter: nat)
    ensures var id := InstanceId(base, counter);
            AllDigits(id[|base| + 1..]) && DecimalValue(id[|base| + 1..]) == counter
  {
    var digits := DecimalString(counter);
    assert InstanceId(base, counter)[|base| + 1..] == digits;
    DecimalRoundTrip(counter);
  }

  /** The text after the last dash of `s` (all of `s` when it has no dash). */
  function AfterLastDash(s: string): (r: string)
    ensures '-' !in r
    ensures |r| <= |s| && r == s[|s| - |r|..]
    decreases |s|
  {
    if |s| == 0 || s[|s| - 1] == '-' then []
    else
      var r := AfterLastDash(s[..|s| - 1]);
      assert s[..|s| - 1][|s| - 1 - |r|..] + [s[|s| - 1]] == s[|s| - 1 - |r|..];
      r + [s[|s| - 1]]
  }

  /** The counter value an instance id carries in its last dash-separated part (0 when that part is not a number). */
  function CounterOf(id: string): nat {
    var d := AfterLastDash(id);
    if AllDigits(d) then DecimalValue(d) else 0
  }

  lemma {:induction false} AfterLastDashOfJoin(a: string, s: string)
    requires '-' !in s
    ensures AfterLastDash(a + "-" + s) == s
    decreases |s|
  {
    var w := a + "-" + s;
    if |s| == 0 {
      assert w[|w| - 1] == '-';
    } else {
      var s' := s[..|s| - 1];
      var c := s[|s| - 1];
      assert s == s' + [c];
      assert w == (a + "-" + s') + [c];
      assert w[..|w| - 1] == a + "-" + s';
      assert w[|w| - 1] == c && c != '-';
      AfterLastDashOfJoin(a, s');
    }
  }

  /** The counter can be read back from every id the planner generates. */
  lemma CounterOfInstanceId(base: string, counter: nat)
    ensures CounterOf(InstanceId(base, counter)) == counter
  {
    var d := DecimalString(counter);
    assert '-' !in d;
    AfterLastDashOfJoin(base, d);
    DecimalRoundTrip(counter);
  }

  /** Ids generated with different counter values differ, whatever the item ids they extend. */
  lemma InstanceIdsDistinct(a: string, b: string, c1: nat, c2: nat)
    requires c1 != c2
    ensures InstanceId(a, c1) != InstanceId(b, c2)
  {
    CounterOfInstanceId(a, c1);
    CounterOfInstanceId(b, c2);
  }
}
