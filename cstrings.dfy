/**
 * The C library's string comparisons, as the bus network uses them.
 * A Dafny string stands for the characters of a NUL-terminated C string
 * before its terminator: reading past the end of the sequence reads the NUL.
 */
module CStrings {

  /** A key or name as the program handles it: no embedded NUL (so the C string
      ends exactly where the sequence ends) and only 7-bit characters (so a
      plain `char` has the same value whether the platform makes it signed). */
  predicate IsCString(s: string) {
    forall i :: 0 <= i < |s| ==> 0 < s[i] as int < 128
  }

  /** A string the program can hold in a char array and pass to strcmp. */
  type CString = s: string | IsCString(s) witness ""

  /** The character at position i, or the terminating NUL past the end. */
  function At(s: string, i: nat): int {
    if i < |s| then s[i] as int else 0
  }

  /** strcmp: the difference of the first pair of characters that differ, or 0
      when both strings reach their terminating NUL together. */
  function StrCmp(a: string, b: string): int
    decreases |a|
  {
    if At(a, 0) != At(b, 0) then At(a, 0) - At(b, 0)
    else if At(a, 0) == 0 then 0
    else StrCmp(a[1..], b[1..])
  }

  /** strncmp: strcmp looking at no more than the first n characters. */
  function StrNCmp(a: string, b: string, n: nat): int
    decreases n
  {
    if n == 0 then 0
    else if At(a, 0) != At(b, 0) then At(a, 0) - At(b, 0)
    else if At(a, 0) == 0 then 0
    else StrNCmp(a[1..], b[1..], n - 1)
  }

  /** On C strings, strcmp reports equality exactly for equal strings. */
  lemma {:induction false} StrCmpZeroIffEqual(a: string, b: string)
    requires IsCString(a) && IsCString(b)
    ensures StrCmp(a, b) == 0 <==> a == b
    decreases |a|
  {
    if At(a, 0) == At(b, 0) && At(a, 0) != 0 {
      assert IsCString(a[1..]) && IsCString(b[1..]);
      StrCmpZeroIffEqual(a[1..], b[1..]);
      assert a == [a[0]] + a[1..] && b == [b[0]] + b[1..];
    }
  }

  /** strcmp of a string with itself is 0: the walk reaches the NUL together. */
  lemma {:induction false} StrCmpReflexive(a: string)
    ensures StrCmp(a, a) == 0
    decreases |a|
  {
    if At(a, 0) != 0 {
      StrCmpReflexive(a[1..]);
    }
  }

  /** Swapping the arguments of strcmp flips the sign of its answer. */
  lemma {:induction false} StrCmpAntisymmetric(a: string, b: string)
    ensures StrCmp(b, a) == -StrCmp(a, b)
    decreases |a|
  {
    if At(a, 0) == At(b, 0) && At(a, 0) != 0 {
      StrCmpAntisymmetric(a[1..], b[1..]);
    }
  }

  /** The order "strcmp(a, b) <= 0" is transitive, so sorting by it makes sense. */
  lemma {:induction false} StrCmpTransitive(a: string, b: string, c: string)
    requires StrCmp(a, b) <= 0 && StrCmp(b, c) <= 0
    ensures StrCmp(a, c) <= 0
    decreases |a|
  {
    if At(a, 0) == At(b, 0) && At(b, 0) == At(c, 0) && At(a, 0) != 0 {
      StrCmpTransitive(a[1..], b[1..], c[1..]);
    }
  }

  /** strncmp(token, s, strlen(token)) == 0 holds exactly when token is a
      prefix of s. */
  lemma {:induction false} StrNCmpIsPrefix(token: string, s: string)
    requires IsCString(token) && IsCString(s)
    ensures StrNCmp(token, s, |token|) == 0 <==> token <= s
    decreases |token|
  {
    if |token| > 0 && At(token, 0) == At(s, 0) {
      assert IsCString(token[1..]) && IsCString(s[1..]);
      StrNCmpIsPrefix(token[1..], s[1..]);
      assert token <= s <==> token[1..] <= s[1..];
    }
  }
}
