/**
 * Attribute-set closure under a list of dependencies (`closure_iterative`).
 *
 * One pass walks the dependencies in order and, for each one whose left
 * side is already included in the running result, inserts its right side;
 * later dependencies in the same pass see what earlier ones inserted. Passes
 * repeat until one inserts nothing.
 */
module Closures {
  import opened Schema

  /** One dependency applied to `cur`: its right side is inserted when its left side is included. */
  function Fire(fd: FD, cur: AttrSet): (r: AttrSet)
    ensures cur <= r <= cur + fd.rhs
    ensures fd.lhs <= cur ==> fd.rhs <= r
    ensures !(fd.lhs <= cur) ==> r == cur
  {
    if fd.lhs <= cur then cur + fd.rhs else cur
  }

  /** One pass of the outer loop: every dependency fired in order. */
  function Pass(fds: seq<FD>, cur: AttrSet): (r: AttrSet)
    ensures cur <= r <= cur + AllRhs(fds)
  {
    if fds == [] then cur else Pass(fds[1..], Fire(fds[0], cur))
  }

  /** A pass that inserts nothing finds the set closed, and a closed set survives a pass unchanged. */
  lemma {:induction false} PassFixedIffClosed(fds: seq<FD>, cur: AttrSet)
    ensures Pass(fds, cur) == cur <==> IsClosed(fds, cur)
  {
    if fds != [] {
      var next := Fire(fds[0], cur);
      PassFixedIffClosed(fds[1..], cur);
      assert forall fd :: fd in fds <==> fd == fds[0] || fd in fds[1..];
      if Pass(fds, cur) == cur {
        assert cur <= next <= Pass(fds[1..], next);
        assert next == cur;
      }
      if IsClosed(fds, cur) {
        assert next == cur;
      }
    }
  }

  /** A pass never leaves a closed superset of where it started. */
  lemma {:induction false} PassStaysBelow(fds: seq<FD>, cur: AttrSet, bound: AttrSet)
    requires cur <= bound && IsClosed(fds, bound)
    ensures Pass(fds, cur) <= bound
  {
    if fds != [] {
      assert fds[0] in fds;
      assert IsClosed(fds[1..], bound);
      PassStaysBelow(fds[1..], Fire(fds[0], cur), bound);
    }
  }

  /**
   * The closure of `x`. Every pass that changes the set inserts an attribute
   * of `AllRhs(fds)` not yet present, so the attributes still missing from
   * that finite set shrink on every recursive call.
   */
  function Closure(fds: seq<FD>, x: AttrSet): (r: AttrSet)
    ensures x <= r <= x + AllRhs(fds)
    ensures IsClosed(fds, r)
    decreases AllRhs(fds) - x
  {
    var next := Pass(fds, x);
    if next == x then
      PassFixedIffClosed(fds, x);
      x
    else
      Closure(fds, next)
  }

  /** The closure is contained in every closed superset of `x`: it is the least one. */
  lemma {:induction false} ClosureLeast(fds: seq<FD>, x: AttrSet, y: AttrSet)
    requires x <= y && IsClosed(fds, y)
    ensures Closure(fds, x) <= y
    decreases AllRhs(fds) - x
  {
    var next := Pass(fds, x);
    PassStaysBelow(fds, x, y);
    if next != x {
      ClosureLeast(fds, next, y);
    }
  }

  /** Enlarging the starting set never shrinks the closure. */
  lemma ClosureMonotone(fds: seq<FD>, x: AttrSet, y: AttrSet)
    requires x <= y
    ensures Closure(fds, x) <= Closure(fds, y)
  {
    ClosureLeast(fds, x, Closure(fds, y));
  }

  /** Closing twice is closing once. */
  lemma ClosureIdempotent(fds: seq<FD>, x: AttrSet)
    ensures Closure(fds, Closure(fds, x)) == Closure(fds, x)
  {
    var c := Closure(fds, x);
    PassFixedIffClosed(fds, c);
  }

  /** The closure is exactly `x` when `x` is already closed; with no dependencies this is always so. */
  lemma ClosureOfClosed(fds: seq<FD>, x: AttrSet)
    ensures Closure(fds, x) == x <==> IsClosed(fds, x)
    ensures fds == [] ==> Closure(fds, x) == x
  {
    if IsClosed(fds, x) {
      ClosureLeast(fds, x, x);
    }
  }

  /** A dependency with an empty left side always fires: `includes` of an empty range holds. */
  lemma EmptyLhsFires(fds: seq<FD>, x: AttrSet, fd: FD)
    requires fd in fds && fd.lhs == {}
    ensures fd.rhs <= Closure(fds, x)
  {
  }

  /** The closure depends only on which dependencies are listed, not on their order or repetition. */
  lemma ClosureIgnoresOrder(a: seq<FD>, b: seq<FD>, x: AttrSet)
    requires forall fd :: fd in a <==> fd in b
    ensures Closure(a, x) == Closure(b, x)
  {
    ClosureLeast(a, x, Closure(b, x));
    ClosureLeast(b, x, Closure(a, x));
  }

  /** Closing under `fds` one more time after a pass changes nothing: a pass keeps the closure. */
  lemma PassKeepsClosure(fds: seq<FD>, x: AttrSet)
    ensures Closure(fds, Pass(fds, x)) == Closure(fds, x)
  {
  }

  /**
   * The innermost loop: inserts each attribute of `rhs` that `cur` lacks,
   * reporting whether any insertion happened.
   */
  method InsertAll(cur: AttrSet, rhs: AttrSet) returns (next: AttrSet, inserted: bool)
    ensures next == cur + rhs
    ensures inserted <==> !(rhs <= cur)
  {
    next := cur;
    inserted := false;
    var todo := rhs;
    while todo != {}
      invariant todo <= rhs
      invariant cur <= next && next + todo == cur + rhs
      invariant inserted <==> next != cur
      decreases todo
    {
      var attr :| attr in todo;
      if attr !in next {
        next := next + {attr};
        inserted := true;
      }
      todo := todo - {attr};
    }
  }

  /** The `for` loop over the dependencies: one pass, reporting whether it changed anything. */
  method RunPass(fds: seq<FD>, start: AttrSet) returns (closure: AttrSet, changed: bool)
    ensures closure == Pass(fds, start)
    ensures changed <==> closure != start
  {
    closure := start;
    changed := false;
    var i := 0;
    while i < |fds|
      invariant 0 <= i <= |fds|
      invariant start <= closure
      invariant Pass(fds[i..], closure) == Pass(fds, start)
      invariant changed <==> closure != start
    {
      var fd := fds[i];
      var before := closure;
      if fd.lhs <= closure {
        var inserted;
        closure, inserted := InsertAll(closure, fd.rhs);
        changed := changed || inserted;
      }
      assert closure == Fire(fd, before);
      assert fds[i..][1..] == fds[i + 1..];
      i := i + 1;
    }
    assert fds[|fds|..] == [];
  }

  /** The outer loop of `closure_iterative`: passes repeat while the last one changed something. */
  method ClosureIterative(fds: seq<FD>, x: AttrSet) returns (closure: AttrSet)
    ensures x <= closure && IsClosed(fds, closure)
    ensures closure == Closure(fds, x)
  {
    closure := x;
    var changed := true;
    while changed
      invariant x <= closure
      invariant Closure(fds, closure) == Closure(fds, x)
      invariant !changed ==> Pass(fds, closure) == closure
      decreases AllRhs(fds) - closure, changed
    {
      var start := closure;
      closure, changed := RunPass(fds, start);
      PassKeepsClosure(fds, start);
    }
    PassFixedIffClosed(fds, closure);
  }
}
