/** The listener lists behind every emitter of the engine (`on`, `off`, `emit`
    of CellInfo, Light and Crossword). A listener is an identifier; `emit`
    is modelled by the sequence of deliveries it makes. */
module Events {

  /** One call of a listener with the emitted payload. */
  datatype Delivery<L, P> = Delivery(listener: L, payload: P)

  /** Number of occurrences of `x` in `s`. */
  function Count<T(==)>(s: seq<T>, x: T): (n: nat)
    ensures n <= |s|
    ensures n == 0 <==> x !in s
  {
    if s == [] then 0 else (if s[0] == x then 1 else 0) + Count(s[1..], x)
  }

  lemma {:induction false} CountAppend<T>(s: seq<T>, t: seq<T>, x: T)
    ensures Count(s + t, x) == Count(s, x) + Count(t, x)
  {
    if s == [] {
      assert s + t == t;
    } else {
      assert (s + t)[0] == s[0] && (s + t)[1..] == s[1..] + t;
      CountAppend(s[1..], t, x);
    }
  }

  /** `s` repeated `k` times. */
  function Repeat<T>(s: seq<T>, k: nat): (r: seq<T>)
    ensures |r| == |s| * k
  {
    if k == 0 then [] else Repeat(s, k - 1) + s
  }

  /** What a forwarding listener `f` passes on when `ls` is emitted: `xs`
      once for each registration of `f`, in registration order. */
  function Echo<L(==), X>(ls: seq<L>, f: L, xs: seq<X>): seq<X> {
    if ls == [] then [] else Echo(ls[..|ls| - 1], f, xs) + (if ls[|ls| - 1] == f then xs else [])
  }

  /** A forwarding listener passes `xs` on exactly as often as it is registered. */
  lemma {:induction false} EchoIsRepeat<L, X>(ls: seq<L>, f: L, xs: seq<X>)
    ensures Echo(ls, f, xs) == Repeat(xs, Count(ls, f))
  {
    if ls != [] {
      var init, last := ls[..|ls| - 1], ls[|ls| - 1];
      var c := Count(init, f);
      EchoIsRepeat(init, f, xs);
      assert ls == init + [last];
      CountAppend(init, [last], f);
      assert [last][1..] == [];
      if last == f {
        assert Count(ls, f) == c + 1;
        assert Repeat(xs, c + 1) == Repeat(xs, c) + xs;
      } else {
        assert Count(ls, f) == c;
      }
    }
  }

  /** A listener that is not registered passes nothing on. */
  lemma {:induction false} EchoAbsent<L, X>(ls: seq<L>, f: L, xs: seq<X>)
    requires f !in ls
    ensures Echo(ls, f, xs) == []
  {
    if ls != [] {
      assert ls[..|ls| - 1] <= ls;
      EchoAbsent(ls[..|ls| - 1], f, xs);
    }
  }

  /** Whatever is passed on is taken from `xs`. */
  lemma {:induction false} EchoWithin<L, X>(ls: seq<L>, f: L, xs: seq<X>)
    ensures forall e | e in Echo(ls, f, xs) :: e in xs
  {
    if ls != [] {
      EchoWithin(ls[..|ls| - 1], f, xs);
    }
  }

  /** `off(fn)`: keeps, in order, every listener other than `f`. */
  function Off<L(==)>(ls: seq<L>, f: L): (r: seq<L>)
    ensures f !in r
    ensures forall g | g in ls && g != f :: Count(r, g) == Count(ls, g)
    ensures forall g | g in r :: g in ls
    ensures |r| == |ls| - Count(ls, f)
  {
    if ls == [] then []
    else if ls[0] == f then Off(ls[1..], f)
    else [ls[0]] + Off(ls[1..], f)
  }

  /** `off` distributes over concatenation, so the surviving listeners keep
      their registration order. */
  lemma {:induction false} OffAppend<L>(a: seq<L>, b: seq<L>, f: L)
    ensures Off(a + b, f) == Off(a, f) + Off(b, f)
  {
    if a == [] {
      assert a + b == b;
    } else {
      assert (a + b)[0] == a[0] && (a + b)[1..] == a[1..] + b;
      OffAppend(a[1..], b, f);
    }
  }

  /** Removing a listener right after adding it leaves the list as `off` alone
      would, and as it was when `f` had not been registered before. */
  lemma OffAfterOn<L>(ls: seq<L>, f: L)
    ensures Off(ls + [f], f) == Off(ls, f)
    ensures f !in ls ==> Off(ls + [f], f) == ls
  {
    OffAppend(ls, [f], f);
    assert Off([f], f) == [];
    if f !in ls {
      OffAbsent(ls, f);
    }
  }

  lemma {:induction false} OffAbsent<L>(ls: seq<L>, f: L)
    requires f !in ls
    ensures Off(ls, f) == ls
  {
    if ls != [] {
      OffAbsent(ls[1..], f);
    }
  }

  /** `emit(params)`: every listener is called once with `params`, in
      registration order. */
  function Emit<L, P>(ls: seq<L>, p: P): (r: seq<Delivery<L, P>>)
    ensures |r| == |ls|
    ensures forall i :: 0 <= i < |ls| ==> r[i] == Delivery(ls[i], p)
  {
    if ls == [] then [] else Emit(ls[..|ls| - 1], p) + [Delivery(ls[|ls| - 1], p)]
  }

  /** A listener added by `on` is called after every earlier one; one removed
      by `off` is never called again. */
  lemma EmitOrder<L, P>(ls: seq<L>, f: L, p: P)
    ensures Emit(ls + [f], p) == Emit(ls, p) + [Delivery(f, p)]
    ensures forall d :: d in Emit(Off(ls, f), p) ==> d.listener != f
  {
    assert (ls + [f])[..|ls|] == ls;
  }
}
