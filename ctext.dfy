/**
 * C-string helpers shared by every other module.
 *
 * A C string is a character sequence that ends at its first NUL. The model
 * keeps only the characters before the terminator (`NulFree` says so), and
 * `At` returns '\0' at and past its end, which is what the C code reads
 * there.
 */
module CText {

  datatype Option<+T> = None | Some(value: T)

  /** The characters of a C string, without its terminator. */
  type CString = seq<char>

  /** No NUL before the end: `s` is exactly what a C string pointer denotes. */
  predicate NulFree(s: seq<char>)
  {
    '\0' !in s
  }

  /** `s[i]` as C reads it: the terminator (or anything past it) reads as NUL. */
  function At(s: seq<char>, i: nat): char
  {
    if i < |s| then s[i] else '\0'
  }

  predicate IsDigit(c: char)
  {
    '0' <= c <= '9'
  }

  function DigitValue(c: char): (v: nat)
    requires IsDigit(c)
    ensures v <= 9
  {
    c as int - '0' as int
  }

  /** The character that prints digit `d`. */
  function DigitChar(d: nat): (c: char)
    requires d <= 9
    ensures IsDigit(c) && DigitValue(c) == d
  {
    ('0' as int + d) as char
  }

  predicate AllDigits(s: seq<char>)
  {
    forall i | 0 <= i < |s| :: IsDigit(s[i])
  }

  /** The decimal value of a run of digits, most significant first. */
  function Decimal(s: seq<char>): nat
    requires AllDigits(s)
  {
    if s == [] then 0 else Decimal(s[..|s| - 1]) * 10 + DigitValue(s[|s| - 1])
  }

  lemma Decimal1(a: char)
    requires IsDigit(a)
    ensures Decimal([a]) == DigitValue(a)
  {
    assert [a][..0] == [];
  }

  lemma Decimal2(a: char, b: char)
    requires IsDigit(a) && IsDigit(b)
    ensures Decimal([a, b]) == DigitValue(a) * 10 + DigitValue(b)
  {
    assert [a, b][..1] == [a];
    Decimal1(a);
  }

  lemma Decimal3(a: char, b: char, c: char)
    requires IsDigit(a) && IsDigit(b) && IsDigit(c)
    ensures Decimal([a, b, c]) == (DigitValue(a) * 10 + DigitValue(b)) * 10 + DigitValue(c)
  {
    assert [a, b, c][..2] == [a, b];
    Decimal2(a, b);
  }

  /** Index of the first `c` in `s`, or `|s|` when there is none (libc strchrnul). */
  function IndexOf(s: seq<char>, c: char): (k: nat)
    ensures k <= |s|
    ensures k < |s| ==> s[k] == c
    ensures forall i | 0 <= i < k :: s[i] != c
  {
    if s == [] then 0
    else if s[0] == c then 0
    else 1 + IndexOf(s[1..], c)
  }

  /** `k` is the first `c` in `s`, or `|s|` when `s` has none. */
  lemma {:induction false} IndexOfIs(s: seq<char>, c: char, k: nat)
    requires k <= |s| && (k < |s| ==> s[k] == c)
    requires forall i | 0 <= i < k :: s[i] != c
    ensures IndexOf(s, c) == k
  {
    if s != [] && s[0] != c {
      IndexOfIs(s[1..], c, k - 1);
    }
  }

  /** Past a prefix without `c`, the first `c` is the first one of the rest. */
  lemma {:induction false} IndexOfConcat(a: seq<char>, b: seq<char>, c: char)
    requires IndexOf(a, c) == |a|
    ensures IndexOf(a + b, c) == |a| + IndexOf(b, c)
  {
    if a != [] {
      assert (a + b)[1..] == a[1..] + b;
      IndexOfConcat(a[1..], b, c);
    } else {
      assert a + b == b;
    }
  }

  /** A `c` inside `a` is found before anything appended to `a` is looked at. */
  lemma {:induction false} IndexOfPrefix(a: seq<char>, b: seq<char>, c: char)
    requires IndexOf(a, c) < |a|
    ensures IndexOf(a + b, c) == IndexOf(a, c)
  {
    if a[0] != c {
      assert (a + b)[1..] == a[1..] + b;
      IndexOfPrefix(a[1..], b, c);
    }
  }

  /** The C string that starts at `b[0]`: everything before the first NUL. */
  function CStr(b: seq<char>): (s: CString)
    ensures NulFree(s)
    ensures |s| <= |b| && s == b[..|s|]
    ensures |s| < |b| ==> b[|s|] == '\0'
  {
    b[..IndexOf(b, '\0')]
  }

  lemma CStrCut(b: seq<char>, j: nat)
    requires j < |b| && b[j] == '\0'
    ensures CStr(b) == CStr(b[..j])
  {
    assert b[..j][..IndexOf(b[..j], '\0')] == b[..IndexOf(b[..j], '\0')];
  }

  lemma CStrOfCString(s: CString)
    requires NulFree(s)
    ensures CStr(s) == s
  {
  }

  lemma CStrTerminated(s: CString, more: seq<char>)
    requires NulFree(s)
    ensures CStr(s + ['\0'] + more) == s
  {
    var b := s + ['\0'] + more;
    assert b[|s|] == '\0';
    CStrCut(b, |s|);
    assert b[..|s|] == s;
  }
}
