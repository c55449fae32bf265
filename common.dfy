/** Small value types shared by every module: optional values, the store faults
    that the services let propagate, Java's narrowing of a long count to an int,
    and the case-insensitive substring test behind the name searches. */
module Common {

  datatype Option<+T> = None | Some(value: T)

  /** Faults raised by the persistence layer instead of a normal return. */
  datatype Fault =
    | UniqueConstraintViolation   // a unique column (email, course code) would hold a duplicate
    | NonUniqueResult             // a single-result query matched more than one row

  datatype Result<+T> = Ok(value: T) | Err(fault: Fault)

  /** The position of the first element satisfying `p`, if any. Every lookup of
      a row by key or by a unique column goes through it. */
  function FirstIndex<T>(s: seq<T>, p: T -> bool): (r: Option<nat>)
    ensures r.Some? ==> r.value < |s| && p(s[r.value])
    ensures r.Some? ==> forall j :: 0 <= j < r.value ==> !p(s[j])
    ensures r.None? <==> forall j :: 0 <= j < |s| ==> !p(s[j])
  {
    if s == [] then None
    else if p(s[0]) then Some(0)
    else match FirstIndex(s[1..], p)
      case None => None
      case Some(i) => Some(i + 1)
  }

  const TWO_32: int := 0x1_0000_0000
  const INT_MIN: int := -0x8000_0000
  const INT_MAX: int := 0x7FFF_FFFF

  /** `Long.intValue()`: keeps the low 32 bits, read as a two's complement int. */
  function IntValue(n: int): (r: int)
    ensures INT_MIN <= r <= INT_MAX
    ensures (n - r) % TWO_32 == 0
    ensures INT_MIN <= n <= INT_MAX ==> r == n
  {
    var low := n % TWO_32;
    if low <= INT_MAX then low else low - TWO_32
  }

  /** Upper-casing of one character; only ASCII letters are folded. */
  function UpperChar(c: char): char
  {
    if 'a' <= c <= 'z' then (c as int - 'a' as int + 'A' as int) as char else c
  }

  function Upper(s: string): (u: string)
    ensures |u| == |s|
    ensures forall i :: 0 <= i < |s| ==> u[i] == UpperChar(s[i])
  {
    if s == [] then [] else [UpperChar(s[0])] + Upper(s[1..])
  }

  /** `q` occurs in `s` at position `i`. */
  ghost predicate OccursAt(q: string, s: string, i: int)
  {
    0 <= i && i + |q| <= |s| && s[i..i + |q|] == q
  }

  /** Executable substring test: `q` is a prefix of `s` or of one of its suffixes. */
  function IsSubstring(q: string, s: string): bool
    decreases |s|
  {
    q <= s || (s != [] && IsSubstring(q, s[1..]))
  }

  /** Every occurrence is found by the executable test. */
  lemma {:induction false} OccursImpliesIsSubstring(q: string, s: string, i: int)
    requires OccursAt(q, s, i)
    ensures IsSubstring(q, s)
    decreases i
  {
    if i == 0 {
      assert s[..|q|] == q;
    } else {
      var t := s[1..];
      assert t[i - 1..i - 1 + |q|] == s[i..i + |q|];
      OccursImpliesIsSubstring(q, t, i - 1);
    }
  }

  /** What the executable test finds is an occurrence. */
  lemma {:induction false} IsSubstringImpliesOccurs(q: string, s: string) returns (i: int)
    requires IsSubstring(q, s)
    ensures OccursAt(q, s, i)
    decreases |s|
  {
    if q <= s {
      i := 0;
    } else {
      var j := IsSubstringImpliesOccurs(q, s[1..]);
      assert s[1..][j..j + |q|] == s[j + 1..j + 1 + |q|];
      i := j + 1;
    }
  }

  /** The executable test agrees with the positional definition, in both directions. */
  lemma IsSubstringIffOccurs(q: string, s: string)
    ensures IsSubstring(q, s) <==> exists i :: OccursAt(q, s, i)
  {
    if IsSubstring(q, s) {
      var i := IsSubstringImpliesOccurs(q, s);
    }
    forall i | OccursAt(q, s, i) ensures IsSubstring(q, s) {
      OccursImpliesIsSubstring(q, s, i);
    }
  }

  /** `UPPER(s) LIKE UPPER('%q%')` with the pattern's wildcards escaped. */
  function ContainsIgnoreCase(s: string, q: string): bool
  {
    IsSubstring(Upper(q), Upper(s))
  }
}
