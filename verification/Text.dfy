/** The few QString operations that the modelled code relies on, with what they mean. */
module Text {

  datatype Option<+T> = None | Some(value: T)

  function Blanks(n: nat): (s: string)
    ensures |s| == n && forall i :: 0 <= i < n ==> s[i] == ' '
  {
    seq(n, _ => ' ')
  }

  predicate Digit(c: char) { '0' <= c <= '9' }

  /** QString::number of a non-negative integer. */
  function Decimal(n: nat): (s: string)
    ensures s != "" && forall c :: c in s ==> Digit(c)
    decreases n
  {
    var d := ['0' + (n % 10) as char];
    if n < 10 then d else Decimal(n / 10) + d
  }

  /** The number a string of digits denotes, most significant digit first. */
  function Value(s: string): (n: nat)
    requires forall c :: c in s ==> Digit(c)
  {
    if s == "" then 0
    else
      var last := s[|s| - 1];
      assert last in s && Digit(last);
      Value(s[..|s| - 1]) * 10 + (last - '0') as nat
  }

  lemma {:induction false} ValueOfDecimal(n: nat)
    ensures Value(Decimal(n)) == n
    decreases n
  {
    if n >= 10 {
      ValueOfDecimal(n / 10);
      assert Decimal(n)[..|Decimal(n)| - 1] == Decimal(n / 10);
    } else {
      assert Decimal(n)[..0] == "";
    }
  }

  const MAX_INT := 2147483647

  /** QString::toInt in base 10: an optional sign and digits, or 0 when the text is
      not a number or the number does not fit a 32-bit int. */
  function ToInt(s: string): (n: int)
    ensures -MAX_INT - 1 <= n <= MAX_INT
  {
    var negative := s != "" && s[0] == '-';
    var digits := if s != "" && (s[0] == '-' || s[0] == '+') then s[1..] else s;
    if digits == "" || exists c :: c in digits && !Digit(c) then 0
    else
      var magnitude: int := Value(digits);
      var v := if negative then -magnitude else magnitude;
      if -MAX_INT - 1 <= v <= MAX_INT then v else 0
  }

  /** toInt undoes number() exactly up to the largest 32-bit int. */
  lemma ToIntOfDecimal(n: nat)
    ensures ToInt(Decimal(n)) == (if n <= MAX_INT then n else 0)
  {
    ValueOfDecimal(n);
    assert Decimal(n)[0] in Decimal(n);
  }

  predicate OccursAt(s: string, pattern: string, i: int)
  {
    0 <= i <= |s| - |pattern| && s[i..i + |pattern|] == pattern
  }

  /** QString::indexOf: the first occurrence at or after `from`, or -1. */
  function IndexOf(s: string, pattern: string, from: nat := 0): (i: int)
    ensures i == -1 || (from <= i && OccursAt(s, pattern, i))
    ensures forall j :: from <= j && (i == -1 || j < i) ==> !OccursAt(s, pattern, j)
    decreases |s| - from
  {
    if from > |s| - |pattern| then -1
    else if OccursAt(s, pattern, from) then from
    else IndexOf(s, pattern, from + 1)
  }

  lemma IndexOfIs(s: string, pattern: string, i: nat)
    requires OccursAt(s, pattern, i) && forall j :: 0 <= j < i ==> !OccursAt(s, pattern, j)
    ensures IndexOf(s, pattern) == i
  {
    var k := IndexOf(s, pattern);
    assert k == -1 || OccursAt(s, pattern, k);
  }

  lemma OccursShorter(s: string, pattern: string, more: string, k: int)
    requires OccursAt(s, pattern + more, k)
    ensures OccursAt(s, pattern, k)
  {
    assert s[k..k + |pattern|] == s[k..k + |pattern + more|][..|pattern|];
    assert (pattern + more)[..|pattern|] == pattern;
  }

  /** Where a pattern does not occur, no longer one does. */
  lemma IndexOfLonger(s: string, pattern: string, more: string)
    requires IndexOf(s, pattern) == -1
    ensures IndexOf(s, pattern + more) == -1
  {
    var k := IndexOf(s, pattern + more);
    if k != -1 { OccursShorter(s, pattern, more, k); }
  }

  /** A pattern whose first character does not recur in it cannot overlap itself. */
  predicate NoOverlap(pattern: string)
  {
    pattern != "" && forall d :: 0 < d < |pattern| ==> pattern[d] != pattern[0]
  }

  lemma NotEarlier(prefix: string, pattern: string, rest: string, j: nat)
    requires NoOverlap(pattern) && !OccursAt(prefix, pattern, j) && j < |prefix|
    ensures !OccursAt(prefix + (pattern + rest), pattern, j)
  {
    var s, p := prefix + (pattern + rest), |prefix|;
    if j + |pattern| <= p {
      assert s[j..j + |pattern|] == prefix[j..j + |pattern|];
    } else if j + |pattern| <= |s| {
      assert s[j..j + |pattern|][p - j] == s[p] == pattern[0];
    }
  }

  /** Behind a prefix without it, such a pattern occurs first where it is put. */
  lemma FirstWhereItIsPut(prefix: string, pattern: string, rest: string)
    requires NoOverlap(pattern) && IndexOf(prefix, pattern) == -1
    ensures IndexOf(prefix + (pattern + rest), pattern) == |prefix|
  {
    var s, p := prefix + (pattern + rest), |prefix|;
    assert s[p..p + |pattern|] == pattern;
    forall j | 0 <= j < p ensures !OccursAt(s, pattern, j) {
      assert !OccursAt(prefix, pattern, j);
      NotEarlier(prefix, pattern, rest, j);
    }
    IndexOfIs(s, pattern, p);
  }
}
