/** Shared value types and the few sequence and multiset facts the other modules need. */
module Base {
  datatype Option<+T> = None | Some(value: T)

  newtype byte = x: int | 0 <= x < 256

  type Key = string

  /** 2^32 and 2^64: the widths of the source's unsigned integers. */
  const U32: nat := 0x1_0000_0000
  const U64: nat := 0x1_0000_0000_0000_0000

  datatype Status = Ok | IOError | NotFound | Corruption | RpcError | NoSpace | InvalidArg

  function Min(a: nat, b: nat): nat { if a < b then a else b }

  function Max(a: nat, b: nat): nat { if a < b then b else a }

  /** A cast to uint32_t, by repeated subtraction. */
  function Low32(n: nat): (m: nat)
    ensures m < U32 && m <= n
  {
    if n < U32 then n else Low32(n - U32)
  }

  lemma {:induction false} Low32IsRemainder(n: nat)
    ensures Low32(n) == n % U32
  {
    if n >= U32 { Low32IsRemainder(n - U32); }
  }

  /** A cast of an unsigned value to int32_t. */
  function ToInt32(n: nat): int {
    var m := n % U32;
    if m < 0x8000_0000 then m else m - U32
  }

  /** Positions of a sequence of length `n`. */
  ghost predicate InRange(pos: seq<nat>, n: nat) {
    forall i :: 0 <= i < |pos| ==> pos[i] < n
  }

  // ---------- sequences without repetition ----------

  ghost predicate NoDup<T>(s: seq<T>) {
    s != [] ==> s[0] !in s[1..] && NoDup(s[1..])
  }

  lemma {:induction false} NoDupAt<T>(s: seq<T>, i: nat, j: nat)
    requires NoDup(s) && i < j < |s|
    ensures s[i] != s[j]
  {
    if i > 0 {
      NoDupAt(s[1..], i - 1, j - 1);
    } else {
      assert s[j] == s[1..][j - 1];
    }
  }

  lemma {:induction false} NoDupFromIndices<T>(s: seq<T>)
    requires forall i, j :: 0 <= i < j < |s| ==> s[i] != s[j]
    ensures NoDup(s)
  {
    if s != [] {
      NoDupFromIndices(s[1..]);
    }
  }

  /** `s` with the first occurrence of `x` taken out. */
  function Without<T(==)>(s: seq<T>, x: T): seq<T> {
    if s == [] then [] else if s[0] == x then s[1..] else [s[0]] + Without(s[1..], x)
  }

  lemma {:induction false} NoDupAppend<T>(s: seq<T>, x: T)
    requires NoDup(s) && x !in s
    ensures NoDup(s + [x])
  {
    if s != [] {
      NoDupAppend(s[1..], x);
      assert (s + [x])[1..] == s[1..] + [x];
    }
  }

  lemma {:induction false} NoDupTake<T>(s: seq<T>, n: nat)
    requires NoDup(s) && n <= |s|
    ensures NoDup(s[..n]) && NoDup(s[n..])
    ensures forall x :: x in s[..n] ==> x !in s[n..]
  {
    if n > 0 {
      NoDupTake(s[1..], n - 1);
      assert s[..n] == [s[0]] + s[1..][..n - 1];
      assert s[n..] == s[1..][n - 1..];
    }
  }

  lemma {:induction false} WithoutAbsent<T>(s: seq<T>, x: T)
    requires x !in s
    ensures Without(s, x) == s
  {
    if s != [] {
      WithoutAbsent(s[1..], x);
    }
  }

  lemma {:induction false} WithoutAt<T>(s: seq<T>, i: nat)
    requires NoDup(s) && i < |s|
    ensures Without(s, s[i]) == s[..i] + s[i + 1..]
  {
    if i > 0 {
      NoDupAt(s, 0, i);
      WithoutAt(s[1..], i - 1);
      assert s[1..][i - 1] == s[i];
      assert s[..i] == [s[0]] + s[1..][..i - 1];
    }
  }

  lemma {:induction false} WithoutNoDup<T>(s: seq<T>, x: T)
    requires NoDup(s)
    ensures NoDup(Without(s, x))
    ensures forall y :: y in Without(s, x) <==> y in s && y != x
    ensures |Without(s, x)| == |s| - if x in s then 1 else 0
  {
    if s != [] {
      assert s == [s[0]] + s[1..];
      if s[0] != x {
        WithoutNoDup(s[1..], x);
      }
    }
  }

  // ---------- multisets of a set's members ----------

  /** A list that fits, with multiplicity, in a set has no repetition and only its members. */
  lemma {:induction false} FitsInSet<T>(s: seq<T>, m: set<T>)
    requires multiset(s) <= multiset(m)
    ensures NoDup(s) && forall x :: x in s ==> x in m
  {
    forall x | x in s ensures x in m {
      assert x in multiset(s);
    }
    if s != [] {
      assert s == [s[0]] + s[1..];
      assert multiset(s) == multiset{s[0]} + multiset(s[1..]);
      assert multiset(m)[s[0]] <= 1;
      assert s[0] !in multiset(s[1..]);
      FitsInSet(s[1..], m);
    }
  }

  /** The members of a list without repetition, as a set and as a multiset. */
  lemma {:induction false} NoDupMultiset<T>(s: seq<T>)
    requires NoDup(s)
    ensures multiset(s) == multiset(set x | x in s)
  {
    if s != [] {
      NoDupMultiset(s[1..]);
      assert s == [s[0]] + s[1..];
      assert (set x | x in s) == {s[0]} + (set x | x in s[1..]);
    }
  }

  lemma SetPlus<T>(m: set<T>, x: T)
    requires x !in m
    ensures multiset(m + {x}) == multiset(m) + multiset{x}
  {
  }

  lemma MultisetCancel<T(!new)>(a: multiset<T>, b: multiset<T>, d: multiset<T>)
    requires a + d == b + d
    ensures a == b
  {
    forall x: T ensures a[x] == b[x] {
      assert (a + d)[x] == (b + d)[x];
    }
  }
}
