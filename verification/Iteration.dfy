/** Repeated application of functions, about which only their algebra is assumed. */
module Iteration {

  function Iterate<T>(f: T -> T, x: T, n: nat): T
    decreases n
  {
    if n == 0 then x else Iterate(f, f(x), n - 1)
  }

  /** n turns in which w is fed to c and then moved on. */
  function Feed<T>(feed: (T, T) -> T, move: T -> T, c: T, w: T, n: nat): T
    decreases n
  {
    if n == 0 then c else Feed(feed, move, feed(c, w), move(w), n - 1)
  }

  /** A step that respects an operation respects it n times over. */
  lemma {:induction false} Homomorphic<T(!new)>(f: T -> T, op: (T, T) -> T, a: T, b: T, n: nat)
    requires forall x, y :: f(op(x, y)) == op(f(x), f(y))
    ensures Iterate(f, op(a, b), n) == op(Iterate(f, a, n), Iterate(f, b, n))
    decreases n
  {
    if n != 0 {
      Homomorphic(f, op, f(a), f(b), n - 1);
    }
  }

  /** If one turn of feeding is one step on the mixed value, n turns are n steps. */
  lemma {:induction false} FeedIsIterate<T(!new)>(feed: (T, T) -> T, move: T -> T, f: T -> T, op: (T, T) -> T,
                                                  c: T, w: T, n: nat)
    requires forall x, y :: op(feed(x, y), move(y)) == f(op(x, y))
    ensures op(Feed(feed, move, c, w, n), Iterate(move, w, n)) == Iterate(f, op(c, w), n)
    decreases n
  {
    if n != 0 {
      FeedIsIterate(feed, move, f, op, feed(c, w), move(w), n - 1);
    }
  }

  lemma {:induction false} Injective<T(!new)>(f: T -> T, a: T, b: T, n: nat)
    requires forall x, y :: f(x) == f(y) ==> x == y
    requires Iterate(f, a, n) == Iterate(f, b, n)
    ensures a == b
    decreases n
  {
    if n != 0 {
      Injective(f, f(a), f(b), n - 1);
    }
  }

  lemma {:induction false} Adds<T>(f: T -> T, x: T, m: nat, n: nat)
    ensures Iterate(f, Iterate(f, x, m), n) == Iterate(f, x, m + n)
    decreases m
  {
    if m != 0 {
      Adds(f, f(x), m - 1, n);
    }
  }

  lemma {:induction false} FeedAdds<T>(feed: (T, T) -> T, move: T -> T, c: T, w: T, m: nat, n: nat)
    ensures Feed(feed, move, c, w, m + n) == Feed(feed, move, Feed(feed, move, c, w, m), Iterate(move, w, m), n)
    decreases m
  {
    if m != 0 {
      FeedAdds(feed, move, feed(c, w), move(w), m - 1, n);
    }
  }

  lemma {:induction false} Four<T>(f: T -> T, x: T)
    ensures Iterate(f, x, 4) == f(f(f(f(x))))
  {
    assert Iterate(f, x, 2) == f(f(x));
    Adds(f, x, 2, 2);
  }

  lemma {:induction false} Eight<T>(f: T -> T, x: T)
    ensures Iterate(f, x, 8) == f(f(f(f(f(f(f(f(x))))))))
  {
    Four(f, x);
    Four(f, f(f(f(f(x)))));
    Adds(f, x, 4, 4);
  }

  /** Four rounds of eight steps, each known to do what g does. */
  lemma {:induction false} ThirtyTwo<T(!new)>(f: T -> T, g: T -> T, x: T)
    requires forall y :: Iterate(f, y, 8) == g(y)
    ensures Iterate(f, x, 32) == g(g(g(g(x))))
  {
    Adds(f, x, 8, 24);
    Adds(f, g(x), 8, 16);
    Adds(f, g(g(x)), 8, 8);
  }

  lemma {:induction false} ThirtyTwoFed<T(!new)>(feed: (T, T) -> T, move: T -> T, g: (T, T) -> T, h: T -> T, c: T, w: T)
    requires forall x, y :: Feed(feed, move, x, y, 8) == g(x, y)
    requires forall y :: Iterate(move, y, 8) == h(y)
    ensures Feed(feed, move, c, w, 32) == g(g(g(g(c, w), h(w)), h(h(w))), h(h(h(w))))
  {
    var c1 := g(c, w);
    var c2 := g(c1, h(w));
    FeedAdds(feed, move, c, w, 8, 24);
    FeedAdds(feed, move, c1, h(w), 8, 16);
    FeedAdds(feed, move, c2, h(h(w)), 8, 8);
  }
}
