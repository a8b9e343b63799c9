/**
 * A recipe to run, with its override attributes and inputs: a plain value
 * object built from positional arguments.
 */
module RecipeInstantiation {
  import opened RubyValues

  datatype Recipe = Recipe(
    nickname: Value, attributes: Value, id: Value, ready: Value,
    externalInputs: Value, inputFlags: Value)

  /** `serialized_members`: the six fields in constructor order. */
  function SerializedMembers(r: Recipe): (m: seq<Value>)
    ensures |m| == 6
  {
    [r.nickname, r.attributes, r.id, r.ready, r.externalInputs, r.inputFlags]
  }

  /** `RecipeInstantiation.new(*args)`: field `i` is `args[i]` when given, nil otherwise. */
  function New(args: seq<Value>): (r: Recipe)
    ensures forall i :: 0 <= i < 6 ==> SerializedMembers(r)[i] == ArgAt(args, i)
  {
    Recipe(ArgAt(args, 0), ArgAt(args, 1), ArgAt(args, 2), ArgAt(args, 3), ArgAt(args, 4), ArgAt(args, 5))
  }

  /** `title`: the nickname. */
  function Title(r: Recipe): (t: Value)
    ensures t == SerializedMembers(r)[0]
  {
    r.nickname
  }

  /** With `k` arguments the first `min(k, 6)` fields are set in order and the rest are nil. */
  lemma {:induction false} MembersOfNew(args: seq<Value>)
    requires |args| <= 6
    ensures SerializedMembers(New(args)) == args + seq(6 - |args|, _ => Nil)
  {
    var m := SerializedMembers(New(args));
    var padded := args + seq(6 - |args|, _ => Nil);
    forall i | 0 <= i < 6
      ensures m[i] == padded[i]
    {
      if i >= |args| {
        assert ArgAt(args, i) == Nil;
      }
    }
  }

  /** Arguments beyond the sixth are ignored. */
  lemma ExtraArgumentsIgnored(args: seq<Value>, extra: seq<Value>)
    requires |args| >= 6
    ensures New(args + extra) == New(args)
  {
    assert forall i :: 0 <= i < 6 ==> ArgAt(args + extra, i) == ArgAt(args, i);
  }

  /** `new(*r.serialized_members)` rebuilds `r`. */
  lemma NewOfSerializedMembers(r: Recipe)
    ensures New(SerializedMembers(r)) == r
    ensures SerializedMembers(New(SerializedMembers(r))) == SerializedMembers(r)
  {
  }

  /** The title of a recipe built from arguments is its first argument. */
  lemma TitleOfNew(args: seq<Value>)
    ensures Title(New(args)) == ArgAt(args, 0)
  {
  }
}
