/**
 * `resolve_identity`: the step of the command-line scripts that builds the
 * agent identity from the `base_id`, `token`, `prefix` and `agent` options
 * and stores its serialised form under `identity`.
 */
module CommonParser {
  import opened Wrappers
  import opened RubyValues
  import opened RubyIntegers
  import opened AgentIdentity

  /**
   * How `resolve_identity` can end other than normally: `exit(1)` on a bad
   * base id, NoMethodError when an option lacks the method called on it,
   * or the constructor's ArgumentError.
   */
  datatype ResolveError = Exit(status: int) | NoMethodError | Raised(error: ArgumentError)

  const DefaultPrefix: string := "rs"
  const DefaultAgent: string := "mapper"

  /** `v || default`. */
  function OrDefault(v: Value, default: Value): (r: Value)
    ensures Truthy(v) ==> r == v
    ensures !Truthy(v) ==> r == default
  {
    if Truthy(v) then v else default
  }

  function Abs(n: int): nat {
    if n < 0 then -n else n
  }

  /** The token the constructor receives: nil and false both mean "generate one". */
  function TokenArgument(v: Value): Option<string>
    requires !Truthy(v) || v.Str?
  {
    if Truthy(v) then Some(v.s) else None
  }

  /**
   * The base id check: `to_i` exists on strings and integers only, and the
   * string must be what the absolute value of its `to_i` prints as. An
   * integer never equals a string, so an integer base id always exits.
   */
  function BaseIdCheck(b: Value): (r: Result<int, ResolveError>)
    ensures r.Success? <==> b.Str? && IsCanonicalNat(b.s)
    ensures r.Success? ==> r.value >= 0 && b == Str(IntToS(r.value)) && r.value == ToI(b.s)
    ensures r.Failure? ==> r.error == if b.Str? || b.Int? then Exit(1) else NoMethodError
  {
    if !(b.Str? || b.Int?) then Failure(NoMethodError)
    else if b.Int? then Failure(Exit(1))
    else
      var n := ToI(b.s);
      AbsRoundTrip(b.s);
      if IntToS(Abs(n)) != b.s then Failure(Exit(1))
      else Success(n)
  }

  /** The prefix, agent name and token handed to the constructor, after the defaults. */
  function ConstructorInputs(options: Hash): (r: Result<(string, string, Option<string>), ResolveError>)
    ensures r.Success? <==>
      var t := Fetch(options, Sym("token"));
      && OrDefault(Fetch(options, Sym("prefix")), Str(DefaultPrefix)).Str?
      && OrDefault(Fetch(options, Sym("agent")), Str(DefaultAgent)).Str?
      && (!Truthy(t) || t.Str?)
    ensures r.Failure? ==> r.error == NoMethodError
    ensures r.Success? ==>
      && Str(r.value.0) == OrDefault(Fetch(options, Sym("prefix")), Str(DefaultPrefix))
      && Str(r.value.1) == OrDefault(Fetch(options, Sym("agent")), Str(DefaultAgent))
      && r.value.2 == TokenArgument(Fetch(options, Sym("token")))
  {
    var prefix := OrDefault(Fetch(options, Sym("prefix")), Str(DefaultPrefix));
    var name := OrDefault(Fetch(options, Sym("agent")), Str(DefaultAgent));
    var token := Fetch(options, Sym("token"));
    if !prefix.Str? || !name.Str? || (Truthy(token) && !token.Str?) then Failure(NoMethodError)
    else Success((prefix.s, name.s, TokenArgument(token)))
  }

  /** The identity `resolve_identity` builds from the options, or `None` when there is no base id. */
  function IdentityFor(options: Hash, generated: string): (r: Result<Option<Identity>, ResolveError>)
    ensures !Truthy(Fetch(options, Sym("base_id"))) <==> r == Success(None)
    ensures r.Success? && r.value.Some? ==>
      BaseIdCheck(Fetch(options, Sym("base_id"))).Success? && ConstructorInputs(options).Success?
    ensures r.Success? && r.value.Some? && ConstructorInputs(options).Success? ==>
      var id := r.value.value;
      var inputs := ConstructorInputs(options).value;
      && Fetch(options, Sym("base_id")) == Str(IntToS(id.baseId))
      && id.prefix == Some(inputs.0) && id.agentName == inputs.1
      && id.token == (if inputs.2.Some? then inputs.2.value else generated)
      && id.delimiter == [IdSeparator]
  {
    var b := Fetch(options, Sym("base_id"));
    if !Truthy(b) then Success(None)
    else
      match BaseIdCheck(b)
      case Failure(e) => Failure(e)
      case Success(n) =>
        match ConstructorInputs(options)
        case Failure(e) => Failure(e)
        case Success((prefix, name, token)) =>
          match New(Some(prefix), name, Int(n), token, None, generated)
          case Failure(e) => Failure(Raised(e))
          case Success(id) => Success(Some(id))
  }

  /** The options after `resolve_identity`: `identity` set to the identity's `to_s` when one was built. */
  function Resolve(options: Hash, generated: string): (r: Result<Hash, ResolveError>)
    ensures r.Failure? <==> IdentityFor(options, generated).Failure?
    ensures !Truthy(Fetch(options, Sym("base_id"))) ==> r == Success(options)
  {
    match IdentityFor(options, generated)
    case Failure(e) => Failure(e)
    case Success(None) => Success(options)
    case Success(Some(id)) => Success(Store(options, Sym("identity"), Str(ToS(id))))
  }

  /** A base id string gets past the check exactly when it is a canonical natural: no sign, no leading zero. */
  lemma BaseIdAccepted(options: Hash, generated: string, x: string)
    requires Fetch(options, Sym("base_id")) == Str(x)
    ensures IdentityFor(options, generated) != Failure(Exit(1)) <==> IsCanonicalNat(x)
  {
  }

  /** Some base ids that exit: a sign, a leading zero, no digits, the empty string. */
  lemma BaseIdRejections(options: Hash, generated: string)
    requires var b := Fetch(options, Sym("base_id"));
             b == Str("-5") || b == Str("007") || b == Str("+5") || b == Str("abc") || b == Str("")
    ensures IdentityFor(options, generated) == Failure(Exit(1))
  {
    var x := Fetch(options, Sym("base_id")).s;
    assert !IsCanonicalNat(x) by {
      if |x| > 0 {
        assert x[0] == '-' || x[0] == '0' || x[0] == '+' || x[0] == 'a';
      }
    }
  }

  lemma DefaultsFreeOfSeparators()
    ensures FreeOfSeparators(DefaultPrefix) && FreeOfSeparators(DefaultAgent) && DefaultAgent != ""
  {
    assert forall i :: 0 <= i < |DefaultPrefix| ==> !IsSeparator(DefaultPrefix[i]);
    assert forall i :: 0 <= i < |DefaultAgent| ==> !IsSeparator(DefaultAgent[i]);
  }

  /**
   * With no prefix and no agent given, the identity is `rs-mapper-<token>-<base id>`,
   * where the token is the `token` option when set and the generated one otherwise.
   */
  lemma DefaultIdentityForm(options: Hash, generated: string, x: string, token: string)
    requires Fetch(options, Sym("base_id")) == Str(x) && IsCanonicalNat(x)
    requires !Truthy(Fetch(options, Sym("prefix"))) && !Truthy(Fetch(options, Sym("agent")))
    requires var t := Fetch(options, Sym("token")); t == Str(token) || (!Truthy(t) && token == generated)
    requires FreeOfSeparators(token)
    ensures Resolve(options, generated).Success?
    ensures Resolve(options, generated).value ==
            Store(options, Sym("identity"), Str(DefaultPrefix + [IdSeparator] + DefaultAgent + [IdSeparator] + token + [IdSeparator] + x))
  {
    DefaultsFreeOfSeparators();
    var n := ToI(x);
    var arg := TokenArgument(Fetch(options, Sym("token")));
    assert ConstructorInputs(options) == Success((DefaultPrefix, DefaultAgent, arg));
    LastFailingCheckWins(Some(DefaultPrefix), DefaultAgent, Int(n), arg);
    assert ConstructorError(Some(DefaultPrefix), DefaultAgent, Int(n), arg).None?;
  }

  /** `resolve_identity` writes `identity` and no other key. */
  lemma ResolveWritesOnlyIdentity(options: Hash, generated: string, k: Value)
    requires DistinctKeys(options) && k != Sym("identity")
    ensures Resolve(options, generated).Success? ==>
      && DistinctKeys(Resolve(options, generated).value)
      && Get(Resolve(options, generated).value, k) == Get(options, k)
  {
    var r := IdentityFor(options, generated);
    if r.Success? && r.value.Some? {
      StoreGet(options, Sym("identity"), Str(ToS(r.value.value)), k);
    }
  }

  /** When an identity is built, `identity` holds its serialised form afterwards. */
  lemma ResolveWritesIdentity(options: Hash, generated: string)
    requires DistinctKeys(options) && Truthy(Fetch(options, Sym("base_id")))
    ensures Resolve(options, generated).Success? ==>
      && IdentityFor(options, generated).value.Some?
      && Get(Resolve(options, generated).value, Sym("identity")) ==
         Some(Str(ToS(IdentityFor(options, generated).value.value)))
  {
    var r := IdentityFor(options, generated);
    if r.Success? {
      var id := r.value.value;
      StoreGet(options, Sym("identity"), Str(ToS(id)), Sym("identity"));
    }
  }

  /**
   * Once the base id passes and the options have the right types, the
   * constructor decides: it raises exactly when one of its checks fails,
   * and the error that propagates is that of the last failing check.
   */
  lemma ConstructorErrorsPropagate(options: Hash, generated: string, x: string, prefix: string, agent: string)
    requires Fetch(options, Sym("base_id")) == Str(x) && IsCanonicalNat(x)
    requires OrDefault(Fetch(options, Sym("prefix")), Str(DefaultPrefix)) == Str(prefix)
    requires OrDefault(Fetch(options, Sym("agent")), Str(DefaultAgent)) == Str(agent)
    requires var t := Fetch(options, Sym("token")); !Truthy(t) || t.Str?
    ensures var token := TokenArgument(Fetch(options, Sym("token")));
            var r := IdentityFor(options, generated);
      && (r.Failure? <==> exists e :: Fails(e, Some(prefix), agent, Int(ToI(x)), token))
      && (r.Failure? ==> r.error.Raised? && Fails(r.error.error, Some(prefix), agent, Int(ToI(x)), token))
      && (r.Failure? ==> forall e :: Fails(e, Some(prefix), agent, Int(ToI(x)), token) ==> CheckOrder(e) <= CheckOrder(r.error.error))
  {
  }

  /**
   * The identity written parses back to itself, provided the token used is
   * non-empty and free of separators and the prefix is not one of the two
   * nanite prefixes.
   */
  lemma WrittenIdentityParses(options: Hash, generated: string)
    requires IdentityFor(options, generated).Success? && IdentityFor(options, generated).value.Some?
    requires FreeOfSeparators(generated) && generated != ""
    requires Fetch(options, Sym("token")) != Str("")
    requires IdentityFor(options, generated).value.value.prefix.value !in {"nanite", "mapper"}
    ensures var id := IdentityFor(options, generated).value.value;
      && Valid(Some(ToS(id))) && Parse(ToS(id)) == Success(id)
  {
    var id := IdentityFor(options, generated).value.value;
    var n := BaseIdCheck(Fetch(options, Sym("base_id"))).value;
    var inputs := ConstructorInputs(options).value;
    assert New(Some(inputs.0), inputs.1, Int(n), inputs.2, None, generated) == Success(id);
    NewIsWellFormed(Some(inputs.0), inputs.1, Int(n), inputs.2, None, generated);
    IdentityParsesBack(id);
  }

  /** The same holds of `valid?` and `parse` as written, when no option used holds a newline. */
  lemma WrittenIdentityParsesAsWritten(options: Hash, generated: string)
    requires IdentityFor(options, generated).Success? && IdentityFor(options, generated).value.Some?
    requires FreeOfSeparators(generated) && generated != ""
    requires Fetch(options, Sym("token")) != Str("")
    requires IdentityFor(options, generated).value.value.prefix.value !in {"nanite", "mapper"}
    requires NewlineFree(IdentityFor(options, generated).value.value)
    ensures var id := IdentityFor(options, generated).value.value;
      && ValidAsWritten(Some(ToS(id))) && ParseAsWritten(ToS(id)) == Success(id)
  {
    var id := IdentityFor(options, generated).value.value;
    WrittenIdentityParses(options, generated);
    ToSNewlineFree(id);
    AsWrittenAgreesWithoutNewline(ToS(id));
  }

  /** The scripts' options hash, which `resolve_identity` updates in place. */
  class Options {
    var entries: Hash

    constructor (entries: Hash)
      ensures this.entries == entries
    {
      this.entries := entries;
    }

    /**
     * `resolve_identity(options)`. The outcome is `None` when the method
     * returns normally, otherwise the exit or exception that ends it; the
     * options are left as they were in that case.
     */
    method ResolveIdentity(generated: string) returns (outcome: Option<ResolveError>)
      modifies this
      ensures outcome.None? <==> Resolve(old(entries), generated).Success?
      ensures outcome.None? ==> entries == Resolve(old(entries), generated).value
      ensures outcome.Some? ==> outcome.value == Resolve(old(entries), generated).error && entries == old(entries)
    {
      match IdentityFor(entries, generated)
      case Failure(e) =>
        outcome := Some(e);
      case Success(None) =>
        outcome := None;
      case Success(Some(id)) =>
        entries := Store(entries, Sym("identity"), Str(ToS(id)));
        outcome := None;
    }
  }
}
