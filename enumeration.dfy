/**
 * Fallible enumeration, as `Iterator::try_for_each` performs it: indices are
 * handed to a callback one at a time, and the first error the callback
 * returns stops the enumeration and is passed back to the caller.
 */
module Enumeration {

  /** What the callback answers for one index: carry on, or stop with an error. */
  datatype Outcome<+E> = Pass | Fail(error: E)

  /**
   * The callback (an `FnMut(usize) -> Result<(), E>`). Because it may keep
   * state, its answer for an index may depend on every index handed to it
   * before; those are its first argument.
   */
  type Visitor<!E> = (seq<nat>, nat) -> Outcome<E>

  /** What an enumeration did: the indices handed to the callback, in order, and the error that stopped it, if any. */
  datatype Walk<+E> = Done(calls: seq<nat>) | Stopped(calls: seq<nat>, error: E)

  /** The same walk, preceded by calls that all passed. */
  function After<E>(before: seq<nat>, w: Walk<E>): (r: Walk<E>)
    ensures r.calls == before + w.calls && r.Done? == w.Done?
    ensures r.Stopped? ==> r.error == w.error
  {
    match w
    case Done(calls) => Done(before + calls)
    case Stopped(calls, e) => Stopped(before + calls, e)
  }

  /** Prefixing no calls changes nothing. */
  lemma AfterNothing<E>(w: Walk<E>)
    ensures After([], w) == w
  {
    assert [] + w.calls == w.calls;
  }

  /** Prefixing calls twice is prefixing them at once. */
  lemma AfterAfter<E>(a: seq<nat>, b: seq<nat>, w: Walk<E>)
    ensures After(a, After(b, w)) == After(a + b, w)
  {
    assert a + (b + w.calls) == (a + b) + w.calls;
  }

  /** Hands the indices of `s` to `f` in order, `seen` being what `f` was handed earlier. */
  function TryEach<E>(s: seq<nat>, f: Visitor<E>, seen: seq<nat>): Walk<E>
  {
    if s == [] then Done([])
    else
      match f(seen, s[0])
      case Fail(e) => Stopped([s[0]], e)
      case Pass => After([s[0]], TryEach(s[1..], f, seen + [s[0]]))
  }

  /** The answer `f` gives for `s[k]` when walking `s` after `seen`. */
  function AnswerAt<E>(s: seq<nat>, f: Visitor<E>, seen: seq<nat>, k: nat): Outcome<E>
    requires k < |s|
  {
    f(seen + s[..k], s[k])
  }

  /** Walking `s` after `s[0]` passed: the answers shift by one position. */
  lemma AnswerShift<E>(s: seq<nat>, f: Visitor<E>, seen: seq<nat>, k: nat)
    requires 0 < k < |s|
    ensures AnswerAt(s, f, seen, k) == AnswerAt(s[1..], f, seen + [s[0]], k - 1)
  {
    assert s[..k] == [s[0]] + s[1..][..k - 1];
    assert seen + s[..k] == (seen + [s[0]]) + s[1..][..k - 1];
  }

  /**
   * Either every index passes and all were handed over, or the walk stops at
   * the first index that fails: everything before it passed and nothing after
   * it was handed over.
   */
  lemma {:induction false} TryEachStopsAtFirstFailure<E>(s: seq<nat>, f: Visitor<E>, seen: seq<nat>)
    ensures var w := TryEach(s, f, seen);
      w.Done? ==> w.calls == s && forall k :: 0 <= k < |s| ==> AnswerAt(s, f, seen, k) == Pass
    ensures var w := TryEach(s, f, seen);
      w.Stopped? ==>
        0 < |w.calls| <= |s| && w.calls == s[..|w.calls|] &&
        AnswerAt(s, f, seen, |w.calls| - 1) == Fail(w.error) &&
        forall k :: 0 <= k < |w.calls| - 1 ==> AnswerAt(s, f, seen, k) == Pass
  {
    if s != [] {
      assert seen + s[..0] == seen;
      assert AnswerAt(s, f, seen, 0) == f(seen, s[0]);
      if f(seen, s[0]).Pass? {
        var seen' := seen + [s[0]];
        TryEachStopsAtFirstFailure(s[1..], f, seen');
        var w' := TryEach(s[1..], f, seen');
        var w := TryEach(s, f, seen);
        assert w == After([s[0]], w');
        if w'.Done? {
          forall k | 0 < k < |s| ensures AnswerAt(s, f, seen, k) == Pass {
            AnswerShift(s, f, seen, k);
          }
          assert w.calls == [s[0]] + s[1..] == s;
        } else {
          var n := |w'.calls|;
          assert w.calls == [s[0]] + s[1..][..n] == s[..n + 1];
          AnswerShift(s, f, seen, n);
          forall k | 0 < k < n ensures AnswerAt(s, f, seen, k) == Pass {
            AnswerShift(s, f, seen, k);
          }
        }
      }
    }
  }

  /** Continues a walk over `b` unless it already stopped. */
  function AndThen<E>(w: Walk<E>, b: seq<nat>, f: Visitor<E>, seen: seq<nat>): Walk<E> {
    if w.Stopped? then w else After(w.calls, TryEach(b, f, seen + w.calls))
  }

  /** Enumerating `a + b` is enumerating `a` and then, unless stopped, `b`. */
  lemma {:induction false} TryEachAppend<E>(a: seq<nat>, b: seq<nat>, f: Visitor<E>, seen: seq<nat>)
    ensures TryEach(a + b, f, seen) == AndThen(TryEach(a, f, seen), b, f, seen)
  {
    if a == [] {
      assert a + b == b;
      assert seen + [] == seen;
      match TryEach(b, f, seen)
      case Done(c) => assert [] + c == c;
      case Stopped(c, e) => assert [] + c == c;
    } else {
      assert (a + b)[0] == a[0] && (a + b)[1..] == a[1..] + b;
      if f(seen, a[0]).Pass? {
        TryEachAppend(a[1..], b, f, seen + [a[0]]);
        var w := TryEach(a[1..], f, seen + [a[0]]);
        if w.Done? {
          assert seen + [a[0]] + w.calls == seen + ([a[0]] + w.calls);
          match TryEach(b, f, seen + [a[0]] + w.calls)
          case Done(c) => assert [a[0]] + (w.calls + c) == [a[0]] + w.calls + c;
          case Stopped(c, e) => assert [a[0]] + (w.calls + c) == [a[0]] + w.calls + c;
        }
      }
    }
  }
}
