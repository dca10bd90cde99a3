/** A step taken many times. */
module Iteration {
  function Iterate<T>(f: T -> T, t: T, n: nat): T
    decreases n
  {
    if n == 0 then t else Iterate(f, f(t), n - 1)
  }

  lemma {:induction false} IterateStops<T>(f: T -> T, t: T, n: nat)
    requires f(t) == t
    ensures Iterate(f, t, n) == t
    decreases n
  {
    if n > 0 {
      IterateStops(f, t, n - 1);
    }
  }

  lemma {:induction false} IterateAdds<T>(f: T -> T, t: T, m: nat, n: nat)
    ensures Iterate(f, t, m + n) == Iterate(f, Iterate(f, t, m), n)
    decreases m
  {
    if m > 0 {
      IterateAdds(f, f(t), m - 1, n);
    }
  }

  /** Where a step changes nothing is the same place however often it was taken. */
  lemma IterateSettlesOnce<T>(f: T -> T, t: T, m: nat, n: nat)
    requires f(Iterate(f, t, m)) == Iterate(f, t, m) && f(Iterate(f, t, n)) == Iterate(f, t, n)
    ensures Iterate(f, t, m) == Iterate(f, t, n)
  {
    if m <= n {
      IterateAdds(f, t, m, n - m);
      IterateStops(f, Iterate(f, t, m), n - m);
    } else {
      IterateAdds(f, t, n, m - n);
      IterateStops(f, Iterate(f, t, n), m - n);
    }
  }

  /** What each step takes one further, many steps take as many further. */
  lemma {:induction false} IterateAdvances<T(!new)>(f: T -> T, at: (T, nat) -> bool, t: T, h: nat, n: nat)
    requires forall u: T, k: nat :: at(u, k) && k < h + n ==> at(f(u), k + 1)
    requires at(t, h)
    ensures at(Iterate(f, t, n), h + n)
    decreases n
  {
    if n > 0 {
      IterateAdvances(f, at, f(t), h + 1, n - 1);
    }
  }

  lemma {:induction false} IterateKeeps<T(!new)>(f: T -> T, keeps: T -> bool, t: T, n: nat)
    requires forall u: T :: keeps(u) ==> keeps(f(u))
    requires keeps(t)
    ensures keeps(Iterate(f, t, n))
    decreases n
  {
    if n > 0 {
      IterateKeeps(f, keeps, f(t), n - 1);
    }
  }

  /** A step that uses up slack whenever it changes anything comes to rest. */
  lemma {:induction false} IterateSettles<T(!new)>(f: T -> T, keeps: T -> bool, slack: T -> nat, t: T, n: nat)
    requires forall u: T :: keeps(u) ==> keeps(f(u)) && (f(u) != u ==> slack(f(u)) < slack(u))
    requires keeps(t) && n >= slack(t)
    ensures f(Iterate(f, t, n)) == Iterate(f, t, n)
    decreases n
  {
    if f(t) == t {
      IterateStops(f, t, n);
    } else {
      IterateSettles(f, keeps, slack, f(t), n - 1);
    }
  }

  /** So does a step that either comes to rest at once or uses up slack. */
  lemma {:induction false} IterateRests<T(!new)>(f: T -> T, slack: T -> nat, t: T, n: nat)
    requires forall u: T :: f(f(u)) == f(u) || slack(f(u)) < slack(u)
    requires slack(t) < n
    ensures f(Iterate(f, t, n)) == Iterate(f, t, n)
    decreases n
  {
    if f(f(t)) == f(t) {
      IterateStops(f, f(t), n - 1);
    } else {
      IterateRests(f, slack, f(t), n - 1);
    }
  }
}
