/** Strings in Python's order (by code point, a proper prefix first) and sorting by it. */
module Ordering {

  predicate Before(a: string, b: string) {
    b != [] && (a == [] || a[0] < b[0] || (a[0] == b[0] && Before(a[1..], b[1..])))
  }

  predicate UpTo(a: string, b: string) {
    a == b || Before(a, b)
  }

  /** The first place where two strings differ decides, or the end of the shorter. */
  ghost predicate Precedes(a: string, b: string) {
    || (|a| < |b| && a == b[..|a|])
    || exists k :: 0 <= k < |a| && k < |b| && a[..k] == b[..k] && a[k] < b[k]
  }

  lemma {:induction false} BeforeExact(a: string, b: string)
    ensures Before(a, b) <==> Precedes(a, b)
  {
    if a != [] && b != [] && a[0] == b[0] {
      var c, d := a[1..], b[1..];
      BeforeExact(c, d);
      assert a == [a[0]] + c && b == [b[0]] + d;
      assert forall k :: 0 <= k < |c| && k < |d| ==> (a[..k + 1] == b[..k + 1] <==> c[..k] == d[..k]) by {
        SamePrefixes(a, b);
      }
      if k :| 0 <= k < |c| && k < |d| && c[..k] == d[..k] && c[k] < d[k] {
        assert a[..k + 1] == b[..k + 1] && a[k + 1] < b[k + 1];
      }
      if k :| 0 <= k < |a| && k < |b| && a[..k] == b[..k] && a[k] < b[k] {
        assert c[..k - 1] == d[..k - 1] && c[k - 1] < d[k - 1];
      }
      assert |a| < |b| ==> (a == b[..|a|] <==> c == d[..|c|]);
    } else if a != [] && b != [] {
      assert forall k :: 0 < k < |a| && k < |b| ==> a[..k][0] != b[..k][0];
      assert a[0] < b[0] ==> a[..0] == b[..0];
    }
  }

  lemma SamePrefixes(a: string, b: string)
    requires a != [] && b != [] && a[0] == b[0]
    ensures forall k :: 0 <= k < |a| - 1 && k < |b| - 1 ==>
                          (a[..k + 1] == b[..k + 1] <==> a[1..][..k] == b[1..][..k])
  {
    forall k | 0 <= k < |a| - 1 && k < |b| - 1
      ensures a[..k + 1] == b[..k + 1] <==> a[1..][..k] == b[1..][..k]
    {
      assert a[..k + 1] == [a[0]] + a[1..][..k] && b[..k + 1] == [b[0]] + b[1..][..k];
    }
  }

  lemma {:induction false} BeforeTransitive(a: string, b: string, c: string)
    requires Before(a, b) && Before(b, c)
    ensures Before(a, c)
  {
    if a != [] && a[0] == b[0] == c[0] {
      BeforeTransitive(a[1..], b[1..], c[1..]);
    }
  }

  lemma {:induction false} BeforeTotal(a: string, b: string)
    ensures Before(a, b) || a == b || Before(b, a)
    ensures !(Before(a, b) && (a == b || Before(b, a)))
  {
    if a != [] && b != [] {
      BeforeTotal(a[1..], b[1..]);
      assert a == [a[0]] + a[1..] && b == [b[0]] + b[1..];
    }
  }

  ghost predicate Ascending(s: seq<string>) {
    forall i, j :: 0 <= i < j < |s| ==> UpTo(s[i], s[j])
  }

  /** Puts a name where it belongs in an ascending row. */
  function Insert(x: string, s: seq<string>): (r: seq<string>)
    ensures multiset(r) == multiset(s) + multiset{x}
  {
    if s == [] then [x]
    else
      assert s == [s[0]] + s[1..];
      if Before(s[0], x) then [s[0]] + Insert(x, s[1..]) else [x] + s
  }

  function Sort(s: seq<string>): (r: seq<string>)
    ensures multiset(r) == multiset(s)
  {
    if s == [] then []
    else
      assert s == [s[0]] + s[1..];
      Insert(s[0], Sort(s[1..]))
  }

  lemma {:induction false} InsertAscending(x: string, s: seq<string>)
    requires Ascending(s)
    ensures Ascending(Insert(x, s))
  {
    if s != [] {
      BeforeTotal(s[0], x);
      if Before(s[0], x) {
        var rest := Insert(x, s[1..]);
        InsertAscending(x, s[1..]);
        forall j | 0 <= j < |rest|
          ensures UpTo(s[0], rest[j])
        {
          assert rest[j] in multiset(rest);
          assert rest[j] == x || rest[j] in s[1..];
        }
      } else {
        forall j | 0 <= j < |s|
          ensures UpTo(x, s[j])
        {
          if 0 < j && UpTo(s[0], s[j]) && x != s[0] && s[0] != s[j] {
            BeforeTransitive(x, s[0], s[j]);
          }
        }
      }
    }
  }

  lemma {:induction false} SortAscending(s: seq<string>)
    ensures Ascending(Sort(s))
  {
    if s != [] {
      SortAscending(s[1..]);
      InsertAscending(s[0], Sort(s[1..]));
    }
  }

  lemma SortSameNames(s: seq<string>)
    ensures forall x :: x in Sort(s) <==> x in s
  {
    forall x
      ensures x in Sort(s) <==> x in s
    {
      assert x in Sort(s) <==> x in multiset(Sort(s));
    }
  }
}
