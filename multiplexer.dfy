/**
 * The multiplexer: a list of targets that every forwarded call is applied
 * to, in order. Targets are compared with `==`, as `include?` and
 * `delete_if` do.
 */
module Multiplexer {

  predicate NoDuplicates<T(==)>(s: seq<T>) {
    forall i, j :: 0 <= i < j < |s| ==> s[i] != s[j]
  }

  /** The list with every element equal to `t` taken out, the rest in their order. */
  function Without<T(==)>(s: seq<T>, t: T): (r: seq<T>)
    ensures t !in r
    ensures |r| <= |s|
  {
    if |s| == 0 then []
    else (if s[0] == t then [] else [s[0]]) + Without(s[1..], t)
  }

  /** Exactly the elements other than `t` survive. */
  lemma {:induction false} WithoutMembers<T>(s: seq<T>, t: T)
    ensures forall x :: x in Without(s, t) <==> x in s && x != t
  {
    if |s| > 0 {
      WithoutMembers(s[1..], t);
      assert s == [s[0]] + s[1..];
    }
  }

  /** Removing distributes over concatenation, so the order of the rest is kept. */
  lemma {:induction false} WithoutConcat<T>(a: seq<T>, b: seq<T>, t: T)
    ensures Without(a + b, t) == Without(a, t) + Without(b, t)
  {
    if |a| > 0 {
      WithoutConcat(a[1..], b, t);
      assert (a + b)[1..] == a[1..] + b;
    } else {
      assert a + b == b;
    }
  }

  /** Removing an absent target changes nothing. */
  lemma {:induction false} WithoutAbsent<T>(s: seq<T>, t: T)
    requires t !in s
    ensures Without(s, t) == s
  {
    if |s| > 0 {
      WithoutAbsent(s[1..], t);
      assert s == [s[0]] + s[1..];
    }
  }

  /** A list without duplicates keeps that property when an element is removed. */
  lemma {:induction false} WithoutNoDuplicates<T>(s: seq<T>, t: T)
    requires NoDuplicates(s)
    ensures NoDuplicates(Without(s, t))
  {
    if |s| > 0 {
      var rest := s[1..];
      assert NoDuplicates(rest) by {
        assert forall i :: 0 <= i < |rest| ==> rest[i] == s[i + 1];
      }
      WithoutNoDuplicates(rest, t);
      WithoutMembers(rest, t);
      var w := Without(rest, t);
      assert s[0] !in rest;
      assert s[0] !in w;
    }
  }

  /** Adding an absent target and removing it again restores the list. */
  lemma AddThenRemove<T>(s: seq<T>, t: T)
    requires t !in s
    ensures Without(s + [t], t) == s
  {
    WithoutConcat(s, [t], t);
    WithoutAbsent(s, t);
    assert Without([t], t) == [];
  }

  /** Adding an element that was absent keeps a list free of duplicates. */
  lemma AppendNoDuplicates<T>(s: seq<T>, t: T)
    requires NoDuplicates(s) && t !in s
    ensures NoDuplicates(s + [t])
  {
  }

  /** `inject([]) { |res, t| res << call(t) }`: the calls' results, one per target, in target order. */
  function ForwardAll<T, R>(targets: seq<T>, call: T -> R): (res: seq<R>)
    ensures |res| == |targets|
    ensures forall i :: 0 <= i < |targets| ==> res[i] == call(targets[i])
  {
    if |targets| == 0 then []
    else ForwardAll(targets[..|targets| - 1], call) + [call(targets[|targets| - 1])]
  }

  /**
   * A multiplexer. A forwarded call is given as the function `call`, which
   * stands for sending the method with its arguments to one target.
   */
  class Multiplexer<T(==)> {
    var targets: seq<T>

    /** `Multiplexer.new(*targets)`: the targets in the order given. */
    constructor (targets: seq<T>)
      ensures this.targets == targets
    {
      this.targets := targets;
    }

    /** `add(target)`: append the target unless it is already there; return the list. */
    method Add(target: T) returns (r: seq<T>)
      modifies this
      ensures targets == if target in old(targets) then old(targets) else old(targets) + [target]
      ensures target in targets
      ensures NoDuplicates(old(targets)) ==> NoDuplicates(targets)
      ensures r == targets
    {
      if target !in targets {
        if NoDuplicates(targets) {
          AppendNoDuplicates(targets, target);
        }
        targets := targets + [target];
      }
      r := targets;
    }

    /** `remove(target)`: delete every element equal to the target, in place; return the list. */
    method Remove(target: T) returns (r: seq<T>)
      modifies this
      ensures targets == Without(old(targets), target)
      ensures target !in targets
      ensures NoDuplicates(old(targets)) ==> NoDuplicates(targets)
      ensures r == targets
    {
      var ts := targets;
      var kept: seq<T> := [];
      var i := 0;
      while i < |ts|
        invariant 0 <= i <= |ts|
        invariant kept == Without(ts[..i], target)
      {
        assert ts[..i + 1] == ts[..i] + [ts[i]];
        WithoutConcat(ts[..i], [ts[i]], target);
        if ts[i] != target {
          kept := kept + [ts[i]];
        }
        i := i + 1;
      }
      assert ts[..i] == ts;
      if NoDuplicates(ts) {
        WithoutNoDuplicates(ts, target);
      }
      targets := kept;
      r := targets;
    }

    /** `method_missing(m, *args)`: the results of the call on every target, in target order. */
    function Forward<R>(call: T -> R): (res: seq<R>)
      reads this
      ensures |res| == |targets|
      ensures forall i :: 0 <= i < |targets| ==> res[i] == call(targets[i])
    {
      ForwardAll(targets, call)
    }
  }
}
