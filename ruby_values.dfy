/**
 * The Ruby values the modelled code passes around: nil, booleans, integers,
 * strings, symbols and any other object; positional (splat) arguments; and
 * Ruby hashes, which remember the order in which their keys were inserted.
 */
module RubyValues {
  import opened Wrappers

  /** A Ruby value. A symbol is represented by its name; `Object` stands for any other object. */
  datatype Value = Nil | Bool(b: bool) | Int(i: int) | Str(s: string) | Sym(name: string) | Object(id: nat)

  /** Ruby truthiness: only nil and false are false. */
  predicate Truthy(v: Value) {
    !(v.Nil? || v == Bool(false))
  }

  /** `args[i]` for a splat array: nil past the end. */
  function ArgAt(args: seq<Value>, i: nat): (v: Value)
    ensures i < |args| ==> v == args[i]
    ensures i >= |args| ==> v == Nil
  {
    if i < |args| then args[i] else Nil
  }

  /** A Ruby Hash: its key/value pairs in insertion order. */
  type Hash = seq<(Value, Value)>

  function Keys(h: Hash): (ks: seq<Value>)
    ensures |ks| == |h|
    ensures forall i :: 0 <= i < |h| ==> ks[i] == h[i].0
  {
    if |h| == 0 then [] else Keys(h[..|h| - 1]) + [h[|h| - 1].0]
  }

  predicate Distinct(s: seq<Value>) {
    forall i, j :: 0 <= i < j < |s| ==> s[i] != s[j]
  }

  /** The representation invariant of a Ruby Hash: no key occurs twice. */
  predicate DistinctKeys(h: Hash) {
    Distinct(Keys(h))
  }

  /** The value stored under `k`, if any (`h.fetch(k)`). */
  function Get(h: Hash, k: Value): (r: Option<Value>)
    ensures r.Some? <==> k in Keys(h)
    ensures r.Some? ==> exists i :: 0 <= i < |h| && h[i] == (k, r.value)
    ensures DistinctKeys(h) ==> forall i :: 0 <= i < |h| && h[i].0 == k ==> r == Some(h[i].1)
  {
    if |h| == 0 then None
    else if h[|h| - 1].0 == k then Some(h[|h| - 1].1)
    else
      assert Keys(h) == Keys(h[..|h| - 1]) + [h[|h| - 1].0];
      Get(h[..|h| - 1], k)
  }

  /** `h[k]`: nil when the key is absent. */
  function Fetch(h: Hash, k: Value): Value {
    Get(h, k).GetOr(Nil)
  }

  function IndexOfKey(h: Hash, k: Value): (i: nat)
    requires k in Keys(h)
    ensures i < |h| && h[i].0 == k
    ensures forall j :: 0 <= j < i ==> h[j].0 != k
  {
    if h[0].0 == k then 0
    else
      assert Keys(h[1..]) == Keys(h)[1..];
      1 + IndexOfKey(h[1..], k)
  }

  /**
   * `h[k] = v`: an existing key keeps its position and takes the new value;
   * a new key is appended at the end.
   */
  function Store(h: Hash, k: Value, v: Value): (r: Hash)
    ensures k in Keys(h) ==> |r| == |h| && Keys(r) == Keys(h)
    ensures k !in Keys(h) ==> r == h + [(k, v)] && Keys(r) == Keys(h) + [k]
  {
    if k in Keys(h) then
      var r := h[IndexOfKey(h, k) := (k, v)];
      assert Keys(r) == Keys(h);
      r
    else
      assert Keys(h + [(k, v)]) == Keys(h) + [k] by {
        assert (h + [(k, v)])[..|h|] == h;
      }
      h + [(k, v)]
  }

  /** Storing a key makes it map to the stored value and leaves every other key as it was. */
  lemma StoreGet(h: Hash, k: Value, v: Value, k': Value)
    requires DistinctKeys(h)
    ensures DistinctKeys(Store(h, k, v))
    ensures Get(Store(h, k, v), k') == if k' == k then Some(v) else Get(h, k')
  {
    var r := Store(h, k, v);
    if k in Keys(h) {
      var i := IndexOfKey(h, k);
      assert Keys(r) == Keys(h);
      if k' == k {
        assert r[i] == (k, v);
      } else if k' in Keys(h) {
        var j :| 0 <= j < |h| && Keys(h)[j] == k';
        assert j != i && r[j] == h[j];
      }
    } else {
      assert Keys(r) == Keys(h) + [k];
      if k' != k && k' in Keys(h) {
        var j :| 0 <= j < |h| && Keys(h)[j] == k';
        assert r[j] == h[j];
      }
    }
  }
}
