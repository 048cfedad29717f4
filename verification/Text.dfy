/** The parts of `std::string` the system relies on: first and last occurrence searches,
    `substr` with its unsigned arithmetic, and decimal numbers.

    A search that finds nothing answers `npos`. Since every use of `npos` in the sources is
    an equality test, an addition that wraps (`npos + 1 == 0`) or the count of a `substr`
    (where a wrapped difference means "up to the end"), it is modelled by -1. */
module Text {

  const NPOS := -1

  /** `p` occurs in `s` at position `i`. */
  predicate At(s: string, p: string, i: int) {
    0 <= i <= |s| - |p| && s[i..i + |p|] == p
  }

  /** `s.find(p, i)`. */
  function FindFrom(s: string, p: string, i: nat): (r: int)
    ensures r == NPOS || (i <= r && At(s, p, r))
    ensures forall j :: i <= j && At(s, p, j) ==> r != NPOS && r <= j
    decreases |s| - i
  {
    if i + |p| > |s| then NPOS
    else if s[i..i + |p|] == p then i
    else FindFrom(s, p, i + 1)
  }

  /** `s.find(p)`. */
  function Find(s: string, p: string): (r: int)
    ensures r == NPOS || At(s, p, r)
    ensures forall j :: At(s, p, j) ==> r != NPOS && r <= j
  {
    FindFrom(s, p, 0)
  }

  /** `s.rfind(p, i)`: the last occurrence that starts at or before `i`. */
  function RFindFrom(s: string, p: string, i: int): (r: int)
    ensures r == NPOS || (r <= i && At(s, p, r))
    ensures forall j :: j <= i && At(s, p, j) ==> j <= r
    decreases i
  {
    if i < 0 then NPOS
    else if At(s, p, i) then i
    else RFindFrom(s, p, i - 1)
  }

  function RFind(s: string, p: string): (r: int)
    ensures r == NPOS || At(s, p, r)
    ensures forall j :: At(s, p, j) ==> j <= r
  {
    RFindFrom(s, p, |s|)
  }

  /** `s.substr(from, to - from)`: a negative difference wraps to a huge count, and a count
      that reaches past the end is cut there. */
  function Slice(s: string, from: nat, to: int): string
    requires from <= |s|
  {
    if to < from || to > |s| then s[from..] else s[from..to]
  }

  /** The range of `size_t`. */
  const SIZES := 0x1_0000_0000_0000_0000

  /** That is `substr` with a count that has wrapped. */
  lemma {:induction false} SliceIsSubstr(s: string, from: nat, to: int)
    requires from <= |s| < SIZES / 2 && -1 <= to < SIZES / 2
    ensures var count := (to - from) % SIZES;
            Slice(s, from, to) == s[from..if from + count < |s| then from + count else |s|]
  {
    if to < from {
      assert (to - from) % SIZES == to - from + SIZES;
    }
  }

  /** `c` does not occur in `s`. */
  predicate Free(s: string, c: char) {
    c !in s
  }

  lemma {:induction false} FindFromIs(s: string, p: string, i: nat, k: nat)
    requires i <= k && At(s, p, k)
    requires forall j :: i <= j < k ==> !At(s, p, j)
    ensures FindFrom(s, p, i) == k
  {
  }

  lemma {:induction false} AtIndex(s: string, p: string, i: int)
    requires 0 <= i && i + |p| <= |s|
    requires forall j :: 0 <= j < |p| ==> s[i + j] == p[j]
    ensures At(s, p, i)
  {
    assert s[i..i + |p|] == p;
  }

  lemma {:induction false} AtChar(s: string, p: string, i: int, j: nat)
    requires At(s, p, i) && j < |p|
    ensures s[i + j] == p[j]
  {
    assert s[i..i + |p|][j] == p[j];
  }

  /** Searching past a prefix. */
  lemma {:induction false} FindShift(a: string, b: string, p: string, i: nat)
    ensures FindFrom(a + b, p, |a| + i) == if FindFrom(b, p, i) == NPOS then NPOS else |a| + FindFrom(b, p, i)
    decreases |b| - i
  {
    if i + |p| <= |b| {
      assert (a + b)[|a| + i..|a| + i + |p|] == b[i..i + |p|];
      if b[i..i + |p|] != p {
        FindShift(a, b, p, i + 1);
      }
    }
  }

  lemma {:induction false} AtShift(a: string, b: string, p: string, i: nat)
    ensures At(a + b, p, |a| + i) <==> At(b, p, i)
  {
    if i + |p| <= |b| {
      assert (a + b)[|a| + i..|a| + i + |p|] == b[i..i + |p|];
    }
  }

  /** Searching backwards, what is found in the second part is found in the whole. */
  lemma {:induction false} RFindShift(a: string, b: string, p: string, k: nat)
    requires RFindFrom(b, p, k) != NPOS
    ensures RFindFrom(a + b, p, |a| + k) == |a| + RFindFrom(b, p, k)
  {
    hide At;
    var r, q := RFindFrom(b, p, k), RFindFrom(a + b, p, |a| + k);
    AtFound(b, p, r);
    AtShift(a, b, p, r);
    AtShift(a, b, p, q - |a|);
  }

  lemma {:induction false} AtFound(s: string, p: string, i: int)
    requires At(s, p, i)
    ensures 0 <= i <= |s| - |p|
  {
  }

  /** A search may skip positions where there is nothing to find. */
  lemma {:induction false} FindSkip(s: string, p: string, i: nat, k: nat)
    requires i <= k && forall j :: i <= j < k ==> !At(s, p, j)
    ensures FindFrom(s, p, i) == FindFrom(s, p, k)
    decreases k - i
  {
    if i < k {
      assert !At(s, p, i);
      FindSkip(s, p, i + 1, k);
    }
  }

  // ---------------------------------------------------------------- decimal numbers

  predicate IsDigit(c: char) {
    '0' <= c <= '9'
  }

  predicate AllDigits(s: string) {
    forall i :: 0 <= i < |s| ==> IsDigit(s[i])
  }

  /** What a stream prints for a non-negative `long`. */
  function Digits(n: nat): (s: string)
    ensures |s| > 0 && AllDigits(s)
  {
    if n < 10 then [('0' as int + n) as char]
    else Digits(n / 10) + [('0' as int + n % 10) as char]
  }

  function Value(s: string): nat
    requires AllDigits(s)
  {
    if s == "" then 0
    else Value(s[..|s| - 1]) * 10 + (s[|s| - 1] as int - '0' as int)
  }

  /** The length of the leading run of digits of `s`, from position `i`. */
  function DigitsEnd(s: string, i: nat): (k: nat)
    requires i <= |s|
    ensures i <= k <= |s|
    ensures forall j :: i <= j < k ==> IsDigit(s[j])
    ensures k < |s| ==> !IsDigit(s[k])
    decreases |s| - i
  {
    if i < |s| && IsDigit(s[i]) then DigitsEnd(s, i + 1) else i
  }

  /** `stol` on text that starts with a digit; the answer -1 stands for an exception. Leading
      blanks and signs, which `stol` accepts, are answered like texts without a number: printed
      numbers never start with them, and results about other texts do not depend on them. */
  function Stol(s: string): (r: int)
    ensures r >= -1
  {
    var k := DigitsEnd(s, 0);
    if k == 0 then -1 else Value(s[..k])
  }

  /** There is a number exactly if the text starts with a digit. */
  lemma {:induction false} StolIff(s: string)
    ensures Stol(s) == -1 <==> s == "" || !IsDigit(s[0])
  {
  }

  lemma {:induction false} DigitsValue(n: nat)
    ensures Value(Digits(n)) == n
  {
    var s := Digits(n);
    if n < 10 {
      assert s[..|s| - 1] == "";
    } else {
      DigitsValue(n / 10);
      assert s[..|s| - 1] == Digits(n / 10);
    }
  }

  /** A printed number is read back, whatever non-digit text follows it. */
  lemma {:induction false} StolDigits(n: nat, rest: string)
    requires rest == "" || !IsDigit(rest[0])
    ensures Stol(Digits(n) + rest) == n
  {
    var s := Digits(n) + rest;
    var d := Digits(n);
    assert forall j :: 0 <= j < |d| ==> s[j] == d[j];
    assert |rest| > 0 ==> s[|d|] == rest[0];
    assert DigitsEnd(s, 0) == |d|;
    assert s[..|d|] == d;
    DigitsValue(n);
  }
}
