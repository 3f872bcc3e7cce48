/** Small vocabulary shared by every part of the model. */
module Common {

  datatype Option<+T> = None | Some(value: T)

  ghost predicate NoDup<T>(s: seq<T>) {
    forall i, j :: 0 <= i < j < |s| ==> s[i] != s[j]
  }

  function Min(a: int, b: int): int {
    if a <= b then a else b
  }

  function Flatten<T>(parts: seq<seq<T>>): seq<T> {
    if parts == [] then [] else parts[0] + Flatten(parts[1..])
  }

  lemma Associate<T>(a: seq<T>, b: seq<T>, c: seq<T>)
    ensures a + (b + c) == a + b + c
  {
  }

  lemma HeadAndTail<T>(s: seq<T>)
    requires s != []
    ensures s == [s[0]] + s[1..]
  {
  }

  /** The elements that satisfy `keep`, in their original order. */
  function Filter<T(!new)>(s: seq<T>, keep: T -> bool): (r: seq<T>)
    ensures |r| <= |s|
  {
    if s == [] then [] else (if keep(s[0]) then [s[0]] else []) + Filter(s[1..], keep)
  }

  lemma {:induction false} FilterMembers<T(!new)>(s: seq<T>, keep: T -> bool)
    ensures forall x :: x in Filter(s, keep) <==> x in s && keep(x)
  {
    if s != [] {
      FilterMembers(s[1..], keep);
    }
  }

  lemma {:induction false} FilterNone<T(!new)>(s: seq<T>, keep: T -> bool)
    requires forall x :: x in s ==> !keep(x)
    ensures Filter(s, keep) == []
  {
    if s != [] {
      FilterNone(s[1..], keep);
    }
  }

  lemma {:induction false} FilterAppend<T(!new)>(a: seq<T>, b: seq<T>, keep: T -> bool)
    ensures Filter(a + b, keep) == Filter(a, keep) + Filter(b, keep)
  {
    if a == [] {
      assert a + b == b;
    } else {
      FilterAppend(a[1..], b, keep);
      var head := if keep(a[0]) then [a[0]] else [];
      calc {
        Filter(a + b, keep);
        { assert (a + b)[0] == a[0] && (a + b)[1..] == a[1..] + b; }
        head + Filter(a[1..] + b, keep);
        head + (Filter(a[1..], keep) + Filter(b, keep));
        (head + Filter(a[1..], keep)) + Filter(b, keep);
        Filter(a, keep) + Filter(b, keep);
      }
    }
  }

  lemma FilterPrefix<T(!new)>(s: seq<T>, n: nat, keep: T -> bool)
    requires n <= |s|
    ensures Filter(s[..n], keep) <= Filter(s, keep)
  {
    assert s == s[..n] + s[n..];
    FilterAppend(s[..n], s[n..], keep);
  }

  lemma {:induction false} FilterKeepsAll<T(!new)>(s: seq<T>, keep: T -> bool)
    requires forall x :: x in s ==> keep(x)
    ensures Filter(s, keep) == s
  {
    if s != [] {
      FilterKeepsAll(s[1..], keep);
    }
  }

  lemma {:induction false} FilterNoDup<T(!new)>(s: seq<T>, keep: T -> bool)
    requires NoDup(s)
    ensures NoDup(Filter(s, keep))
  {
    if s != [] {
      FilterNoDup(s[1..], keep);
      FilterMembers(s[1..], keep);
      assert s[0] !in s[1..];
    }
  }

  /** The list `s` without one value. */
  function Other<T(==)>(x: T): T -> bool {
    y => y != x
  }

  /** Number of elements a list without duplicates loses when one of them is removed. */
  lemma {:induction false} RemovalLength<T(!new)>(s: seq<T>, x: T)
    requires NoDup(s)
    ensures |Filter(s, Other(x))| == if x in s then |s| - 1 else |s|
  {
    if s != [] {
      RemovalLength(s[1..], x);
      assert s[0] !in s[1..];
    }
  }

  /** Decimal text of a number, as an f-string or `str` writes it. */
  function Digits(n: nat): (d: string)
    ensures |d| >= 1
  {
    if n < 10 then ["0123456789"[n]] else Digits(n / 10) + ["0123456789"[n % 10]]
  }

  /** Reads a decimal text back. */
  function Value(d: string): nat {
    if d == [] then 0
    else 10 * Value(d[..|d| - 1]) + DigitValue(d[|d| - 1])
  }

  function DigitValue(c: char): nat {
    if '0' <= c <= '9' then c as int - '0' as int else 0
  }

  lemma ValueAppend(d: string, c: char)
    ensures Value(d + [c]) == 10 * Value(d) + DigitValue(c)
  {
    assert (d + [c])[..|d|] == d;
  }

  lemma OneDigit(n: nat)
    requires n < 10
    ensures DigitValue("0123456789"[n]) == n && Value(["0123456789"[n]]) == n
  {
    var d := "0123456789"[n];
    assert [d][..0] == [] && [d][0] == d;
  }

  lemma TenTimes(n: nat)
    ensures 10 * (n / 10) + n % 10 == n
  {
  }

  lemma {:induction false} DigitsRoundTrip(n: nat)
    ensures Value(Digits(n)) == n
  {
    if n < 10 {
      OneDigit(n);
    } else {
      var front, last := Digits(n / 10), "0123456789"[n % 10];
      DigitsRoundTrip(n / 10);
      OneDigit(n % 10);
      TenTimes(n);
      calc {
        Value(Digits(n));
        Value(front + [last]);
        { ValueAppend(front, last); }
        10 * Value(front) + DigitValue(last);
        10 * (n / 10) + n % 10;
      }
    }
  }

  lemma DigitsInjective(m: nat, n: nat)
    requires Digits(m) == Digits(n)
    ensures m == n
  {
    DigitsRoundTrip(m);
    DigitsRoundTrip(n);
  }
}
