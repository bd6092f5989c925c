/** Character-level helpers shared by the schema, the field coercion and the
    cache-file naming: decimal digit strings, the code-point ordering numpy
    uses for its string arrays, and sequence flattening. */
module Text {

  predicate IsDigit(c: char) {
    '0' <= c <= '9'
  }

  predicate AllDigits(s: string) {
    forall i :: 0 <= i < |s| ==> IsDigit(s[i])
  }

  function DigitValue(c: char): nat
    requires IsDigit(c)
  {
    c as int - '0' as int
  }

  function DigitChar(d: nat): (c: char)
    requires d < 10
    ensures IsDigit(c) && DigitValue(c) == d
  {
    ('0' as int + d) as char
  }

  /** The value of a string of decimal digits, most significant first. */
  function NatOf(s: string): nat
    requires AllDigits(s)
  {
    if |s| == 0 then 0 else NatOf(s[..|s| - 1]) * 10 + DigitValue(s[|s| - 1])
  }

  /** The canonical decimal spelling of `n`: digits only, never empty, and no
      leading zero except for zero itself. */
  function NatToString(n: nat): (s: string)
    ensures AllDigits(s) && |s| > 0
    ensures s[0] == '0' <==> n == 0
  {
    if n < 10 then [DigitChar(n)] else NatToString(n / 10) + [DigitChar(n % 10)]
  }

  /** Printing a number and reading it back gives the number. */
  lemma {:induction false} NatRoundTrip(n: nat)
    ensures NatOf(NatToString(n)) == n
  {
    if n >= 10 {
      var s := NatToString(n);
      assert s[..|s| - 1] == NatToString(n / 10);
      NatRoundTrip(n / 10);
    }
  }

  function Pow10(k: nat): (p: nat)
    ensures p >= 1
  {
    if k == 0 then 1 else 10 * Pow10(k - 1)
  }

  /** Strict lexicographic order by code point, a proper prefix first: the
      order in which numpy sorts the entries of a fixed-width string array. */
  predicate LexLess(a: string, b: string) {
    if |a| == 0 then |b| > 0
    else if |b| == 0 then false
    else a[0] < b[0] || (a[0] == b[0] && LexLess(a[1..], b[1..]))
  }

  lemma {:induction false} LexIrreflexive(a: string)
    ensures !LexLess(a, a)
  {
    if |a| > 0 {
      LexIrreflexive(a[1..]);
    }
  }

  lemma {:induction false} LexTransitive(a: string, b: string, c: string)
    requires LexLess(a, b) && LexLess(b, c)
    ensures LexLess(a, c)
  {
    if |a| > 0 && a[0] == b[0] && b[0] == c[0] {
      LexTransitive(a[1..], b[1..], c[1..]);
    }
  }

  lemma {:induction false} LexTotal(a: string, b: string)
    requires a != b
    ensures LexLess(a, b) || LexLess(b, a)
  {
    if |a| > 0 && |b| > 0 && a[0] == b[0] {
      assert a == [a[0]] + a[1..] && b == [b[0]] + b[1..];
      LexTotal(a[1..], b[1..]);
    }
  }

  /** Every element strictly below every later one. */
  predicate StrictlySorted(s: seq<string>) {
    forall i, j :: 0 <= i < j < |s| ==> LexLess(s[i], s[j])
  }

  predicate NoDuplicates<T(==)>(s: seq<T>) {
    forall i, j :: 0 <= i < j < |s| ==> s[i] != s[j]
  }

  /** An element that occurs in no earlier position occurs once. */
  lemma NoDuplicatesFromPrefixes<T>(s: seq<T>)
    requires forall i :: 0 <= i < |s| ==> s[i] !in s[..i]
    ensures NoDuplicates(s)
  {
    forall i, j | 0 <= i < j < |s|
      ensures s[i] != s[j]
    {
      assert s[i] == s[..j][i];
    }
  }

  /** No element of `a` occurs in `b`. */
  predicate Disjoint<T(==)>(a: seq<T>, b: seq<T>) {
    forall i :: 0 <= i < |a| ==> a[i] !in b
  }

  lemma DisjointAppend<T>(a: seq<T>, b: seq<T>, c: seq<T>)
    requires Disjoint(a, c) && Disjoint(b, c)
    ensures Disjoint(a + b, c)
  {
    forall i | 0 <= i < |a + b|
      ensures (a + b)[i] !in c
    {
      if i >= |a| {
        assert (a + b)[i] == b[i - |a|];
      }
    }
  }

  lemma NoDuplicatesAppend<T>(a: seq<T>, b: seq<T>)
    requires NoDuplicates(a) && NoDuplicates(b) && Disjoint(a, b)
    ensures NoDuplicates(a + b)
  {
    forall i, j | 0 <= i < j < |a + b|
      ensures (a + b)[i] != (a + b)[j]
    {
      if i < |a| <= j {
        assert (a + b)[i] == a[i] && (a + b)[j] in b;
      }
    }
  }

  /** Inserts `v` into a strictly sorted sequence that does not hold it. */
  function Insert(v: string, s: seq<string>): (r: seq<string>)
    requires StrictlySorted(s) && v !in s
    ensures StrictlySorted(r)
    ensures |r| == |s| + 1
    ensures forall w :: w in r <==> w == v || w in s
  {
    if |s| == 0 then [v]
    else if LexLess(v, s[0]) then
      assert forall j :: 0 < j < |s| ==> LexLess(v, s[j]) by {
        forall j | 0 < j < |s| {
          LexTransitive(v, s[0], s[j]);
        }
      }
      [v] + s
    else
      LexTotal(v, s[0]);
      var t := Insert(v, s[1..]);
      assert forall w :: w in s[1..] ==> LexLess(s[0], w);
      [s[0]] + t
  }

  /** Sorts a sequence of distinct strings into ascending order. */
  function Sort(s: seq<string>): (r: seq<string>)
    requires NoDuplicates(s)
    ensures StrictlySorted(r)
    ensures |r| == |s|
    ensures forall w :: w in r <==> w in s
  {
    if |s| == 0 then []
    else
      assert NoDuplicates(s[1..]);
      Insert(s[0], Sort(s[1..]))
  }

  /** All the pieces of `parts`, one after another. */
  function Flatten<T>(parts: seq<seq<T>>): seq<T> {
    if |parts| == 0 then [] else parts[0] + Flatten(parts[1..])
  }

  function Sum(xs: seq<nat>): nat {
    if |xs| == 0 then 0 else xs[0] + Sum(xs[1..])
  }

  lemma {:induction false} FlattenSnoc<T>(parts: seq<seq<T>>, last: seq<T>)
    ensures Flatten(parts + [last]) == Flatten(parts) + last
  {
    if |parts| > 0 {
      assert (parts + [last])[1..] == parts[1..] + [last];
      FlattenSnoc(parts[1..], last);
    }
  }

  lemma {:induction false} FlattenLength<T>(parts: seq<seq<T>>)
    ensures |Flatten(parts)| == Sum(seq(|parts|, i requires 0 <= i < |parts| => |parts[i]|))
  {
    if |parts| > 0 {
      FlattenLength(parts[1..]);
      assert seq(|parts|, i requires 0 <= i < |parts| => |parts[i]|)[1..]
          == seq(|parts[1..]|, i requires 0 <= i < |parts[1..]| => |parts[1..][i]|);
    }
  }
}
