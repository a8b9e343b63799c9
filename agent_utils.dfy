/**
 * `symbolize`: a copy of a hash whose string keys have become symbols.
 */
module AgentUtils {
  import opened Wrappers
  import opened RubyValues

  /** `key.respond_to?(:intern) ? key.intern : key`: strings and symbols become symbols. */
  function Intern(key: Value): (k: Value)
    ensures key.Str? ==> k == Sym(key.s)
    ensures !key.Str? ==> k == key
  {
    if key.Str? then Sym(key.s) else key
  }

  /** The keys of `h` as `symbolize` turns them into. */
  function InternedKeys(h: Hash): (ks: seq<Value>)
    ensures |ks| == |h|
    ensures forall i :: 0 <= i < |h| ==> ks[i] == Intern(h[i].0)
  {
    seq(|h|, i requires 0 <= i < |h| => Intern(h[i].0))
  }

  /** The value of the last pair of `h` whose key interns to `k`, if any. */
  function LastValueFor(h: Hash, k: Value): (r: Option<Value>)
    ensures r.Some? <==> exists i :: 0 <= i < |h| && Intern(h[i].0) == k
  {
    if |h| == 0 then None
    else if Intern(h[|h| - 1].0) == k then Some(h[|h| - 1].1)
    else
      var r := LastValueFor(h[..|h| - 1], k);
      assert forall i :: 0 <= i < |h| - 1 ==> h[..|h| - 1][i] == h[i];
      r
  }

  /** The value found is that of the last pair whose key interns to `k`. */
  lemma {:induction false} LastValueForIsLast(h: Hash, k: Value, i: nat)
    requires i < |h| && Intern(h[i].0) == k
    requires forall j :: i < j < |h| ==> Intern(h[j].0) != k
    ensures LastValueFor(h, k) == Some(h[i].1)
  {
    var n := |h| - 1;
    if i < n {
      var init := h[..n];
      assert init[i] == h[i];
      assert forall j :: i < j < n ==> init[j] == h[j];
      LastValueForIsLast(init, k, i);
    }
  }

  /** The hash `symbolize` has built after the pairs of `h`, stored in order under their interned keys. */
  function Symbolized(h: Hash): Hash {
    if |h| == 0 then []
    else Store(Symbolized(h[..|h| - 1]), Intern(h[|h| - 1].0), h[|h| - 1].1)
  }

  /**
   * `symbolize(h)`: a fresh hash, filled in the order of `h`, under the
   * interned keys. When two keys intern to the same symbol the later value
   * wins; the input is a value and is left as it was.
   */
  method Symbolize(h: Hash) returns (sym: Hash)
    ensures sym == Symbolized(h)
    ensures DistinctKeys(sym)
    ensures forall k :: Get(sym, k) == LastValueFor(h, k)
    ensures |sym| <= |h|
    ensures Distinct(InternedKeys(h)) ==> |sym| == |h|
  {
    sym := [];
    var i := 0;
    while i < |h|
      invariant 0 <= i <= |h|
      invariant sym == Symbolized(h[..i])
    {
      assert h[..i + 1][..i] == h[..i];
      sym := Store(sym, Intern(h[i].0), h[i].1);
      i := i + 1;
    }
    assert h[..i] == h;
    SymbolizedDistinct(h);
    forall k
      ensures Get(sym, k) == LastValueFor(h, k)
    {
      SymbolizedGet(h, k);
    }
    SymbolizedSize(h);
  }

  /** No key occurs twice in what `symbolize` builds. */
  lemma {:induction false} SymbolizedDistinct(h: Hash)
    ensures DistinctKeys(Symbolized(h))
  {
    if |h| > 0 {
      var n := |h| - 1;
      SymbolizedDistinct(h[..n]);
      StoreGet(Symbolized(h[..n]), Intern(h[n].0), h[n].1, Intern(h[n].0));
    }
  }

  /** Under each key, `symbolize` holds the value of the last pair whose key interns to it. */
  lemma {:induction false} SymbolizedGet(h: Hash, k: Value)
    ensures Get(Symbolized(h), k) == LastValueFor(h, k)
  {
    if |h| > 0 {
      var n := |h| - 1;
      var init := h[..n];
      SymbolizedGet(init, k);
      SymbolizedDistinct(init);
      StoreGet(Symbolized(init), Intern(h[n].0), h[n].1, k);
    }
  }

  /** `symbolize` loses a key only when two keys intern to the same one. */
  lemma {:induction false} SymbolizedSize(h: Hash)
    ensures |Symbolized(h)| <= |h|
    ensures Distinct(InternedKeys(h)) ==> |Symbolized(h)| == |h|
  {
    if |h| > 0 {
      var n := |h| - 1;
      var init := h[..n];
      var sym := Symbolized(init);
      assert Symbolized(h) == Store(sym, Intern(h[n].0), h[n].1);
      SymbolizedSize(init);
      InternedKeysPrefix(h, n);
      if Distinct(InternedKeys(h)) {
        NewKeyIsAbsent(h, n, sym);
      }
    }
  }

  lemma InternedKeysPrefix(h: Hash, n: nat)
    requires n <= |h|
    ensures Distinct(InternedKeys(h)) ==> Distinct(InternedKeys(h[..n]))
  {
    var a := InternedKeys(h);
    var b := InternedKeys(h[..n]);
    assert forall i :: 0 <= i < n ==> b[i] == a[i];
  }

  /** With distinct interned keys, the key of pair `i` is not among those stored from the first `i` pairs. */
  lemma NewKeyIsAbsent(h: Hash, i: nat, sym: Hash)
    requires i < |h| && Distinct(InternedKeys(h))
    requires sym == Symbolized(h[..i])
    ensures Intern(h[i].0) !in Keys(sym)
  {
    var nk := Intern(h[i].0);
    var ks := InternedKeys(h);
    SymbolizedGet(h[..i], nk);
    forall j | 0 <= j < i
      ensures Intern(h[..i][j].0) != nk
    {
      assert ks[j] != ks[i];
    }
  }
}
