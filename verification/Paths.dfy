/** Relative paths as lists of components, their POSIX spelling, and the code-point order that
    `sorted` uses on strings. */
module Paths {
  import opened Sorting

  type Path = seq<string>

  /** What a file system can produce: at least one component, none empty, none with a slash. */
  predicate WellFormed(p: Path) {
    p != [] && forall i :: 0 <= i < |p| ==> p[i] != "" && '/' !in p[i]
  }

  function Posix(p: Path): string
    requires p != []
  {
    if |p| == 1 then p[0] else p[0] + "/" + Posix(p[1..])
  }

  /** The POSIX spelling determines the path. */
  lemma {:induction false} PosixInjective(a: Path, b: Path)
    requires WellFormed(a) && WellFormed(b) && Posix(a) == Posix(b)
    ensures a == b
  {
    HeadsAgree(a, b);
    assert a[0] == Posix(a)[..|a[0]|] == b[0];
    if |a| > 1 {
      assert Posix(a[1..]) == Posix(a)[|a[0]| + 1..];
      assert Posix(b[1..]) == Posix(b)[|b[0]| + 1..];
      PosixInjective(a[1..], b[1..]);
      assert a == [a[0]] + a[1..] && b == [b[0]] + b[1..];
    }
  }

  /** The first component ends at the first slash. */
  lemma HeadsAgree(a: Path, b: Path)
    requires WellFormed(a) && WellFormed(b) && Posix(a) == Posix(b)
    ensures |a[0]| == |b[0]| && (|a| == 1 <==> |b| == 1)
  {
    FirstSlash(a);
    FirstSlash(b);
  }

  lemma FirstSlash(a: Path)
    requires WellFormed(a)
    ensures |a[0]| <= |Posix(a)|
    ensures forall i :: 0 <= i < |a[0]| ==> Posix(a)[i] != '/'
    ensures |a| == 1 <==> |Posix(a)| == |a[0]|
    ensures |a| > 1 ==> Posix(a)[|a[0]|] == '/'
  {
  }

  function Name(p: Path): string
    requires p != []
  {
    p[|p| - 1]
  }

  /** From the last dot on; a leading or trailing dot starts no suffix. */
  function Suffix(name: string): string {
    var i := LastDot(name, |name|);
    if 0 < i < |name| - 1 then name[i..] else ""
  }

  /** Index of the last dot among the first `n` characters, or -1. */
  function LastDot(name: string, n: nat): (i: int)
    requires n <= |name|
    ensures -1 <= i < n
  {
    if n == 0 then -1 else if name[n - 1] == '.' then n - 1 else LastDot(name, n - 1)
  }

  function Lower(s: string): string {
    seq(|s|, i requires 0 <= i < |s| => if 'A' <= s[i] <= 'Z' then s[i] - 'A' + 'a' else s[i])
  }

  // ----- string order

  predicate LexLe(a: string, b: string) {
    if a == "" then true
    else if b == "" then false
    else if a[0] != b[0] then a[0] < b[0]
    else LexLe(a[1..], b[1..])
  }

  /** A proper beginning, or the smaller character where the two first differ. */
  ghost predicate StringBefore(a: string, b: string) {
    exists k :: DiffersAt(a, b, k)
  }

  ghost predicate DiffersAt(a: string, b: string, k: nat) {
    && k <= |a| && k < |b| && (forall i :: 0 <= i < k ==> a[i] == b[i])
    && (k < |a| ==> a[k] < b[k])
  }

  /** The recursive comparison is the dictionary order. */
  lemma {:induction false} LexLeExactly(a: string, b: string)
    ensures LexLe(a, b) <==> a == b || StringBefore(a, b)
  {
    if a != "" && b != "" && a[0] == b[0] {
      LexLeExactly(a[1..], b[1..]);
      assert a == [a[0]] + a[1..] && b == [b[0]] + b[1..];
      if k: nat :| DiffersAt(a[1..], b[1..], k) {
        assert DiffersAt(a, b, k + 1);
      }
      if k: nat :| DiffersAt(a, b, k) {
        assert DiffersAt(a[1..], b[1..], k - 1);
      }
    } else {
      assert a == "" && b != "" ==> DiffersAt(a, b, 0);
      assert a != "" && b != "" && a[0] < b[0] ==> DiffersAt(a, b, 0);
    }
  }

  lemma {:induction false} LexTotal(a: string, b: string)
    ensures LexLe(a, b) || LexLe(b, a)
    ensures LexLe(a, b) && LexLe(b, a) ==> a == b
  {
    if a != "" && b != "" && a[0] == b[0] {
      LexTotal(a[1..], b[1..]);
      assert a == [a[0]] + a[1..] && b == [b[0]] + b[1..];
    }
  }

  lemma {:induction false} LexTransitive(a: string, b: string, c: string)
    requires LexLe(a, b) && LexLe(b, c)
    ensures LexLe(a, c)
  {
    if a != "" && b != "" && c != "" && a[0] == b[0] == c[0] {
      LexTransitive(a[1..], b[1..], c[1..]);
    }
  }

  lemma LexOrders()
    ensures TotalPreorder(LexLe)
  {
    forall a: string, b: string
      ensures LexLe(a, b) || LexLe(b, a)
    {
      LexTotal(a, b);
    }
    forall a: string, b: string, c: string | LexLe(a, b) && LexLe(b, c)
      ensures LexLe(a, c)
    {
      LexTransitive(a, b, c);
    }
  }

  /** The order of POSIX spellings. */
  predicate ByPosix(a: Path, b: Path) {
    if a == [] then true else if b == [] then false else LexLe(Posix(a), Posix(b))
  }

  lemma ByPosixOrders()
    ensures TotalPreorder(ByPosix)
  {
    LexOrders();
    assert forall a: Path, b: Path :: a != [] && b != [] ==> LexLe(Posix(a), Posix(b)) || LexLe(Posix(b), Posix(a));
  }
}
