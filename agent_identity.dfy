/**
 * Agent identities: the validating constructor, the serialised form
 * `<prefix>-<agent name>-<token>-<base id>`, validity test and parser for
 * that form (also accepting the older `*` separator and the `nanite-` /
 * `mapper-` prefixed names), and equality that ignores the delimiter.
 */
module AgentIdentity {
  import opened Wrappers
  import opened RubyValues
  import opened RubyStrings
  import opened RubyIntegers

  /** Separator used between identity components when serialised. */
  const IdSeparator: char := '-'
  /** Separator used between identity components before release 3.4. */
  const IdSeparatorOld: char := '*'

  predicate IsSeparator(c: char) {
    c == IdSeparator || c == IdSeparatorOld
  }

  predicate FreeOfSeparators(s: string) {
    IdSeparator !in s && IdSeparatorOld !in s
  }

  /** An identity; `delimiter` is the one `ToS` uses, and is ignored by `SameIdentity`. */
  datatype Identity = Identity(prefix: Option<string>, agentName: string, token: string, baseId: int, delimiter: string)

  /** The argument errors raised by the constructor and by `Parse`. */
  datatype ArgumentError =
    | PrefixContains(separator: char)
    | AgentNameContains(separator: char)
    | AgentNameEmpty
    | BaseIdNotPositive
    | TokenContains(separator: char)
    | InvalidIdentityToken
    | InvalidBaseId
  {
    function Message(): string {
      match this
      case PrefixContains(c) => "Prefix cannot contain '" + [c] + "'"
      case AgentNameContains(c) => "Agent name cannot contain '" + [c] + "'"
      case AgentNameEmpty => "Agent name cannot be empty"
      case BaseIdNotPositive => "Base ID must be a positive integer"
      case TokenContains(c) => "Token cannot contain '" + [c] + "'"
      case InvalidIdentityToken => "Invalid agent identity token"
      case InvalidBaseId => "Invalid agent identity token (Base ID)"
    }
  }

  /**
   * The constructor's chain of checks in source order. Each failing check
   * overwrites the message of the previous ones, so the last one decides.
   */
  function ConstructorError(prefix: Option<string>, agentName: string, baseId: Value, token: Option<string>): Option<ArgumentError> {
    var e0: Option<ArgumentError> := None;
    var e1 := if prefix.Some? && IdSeparator in prefix.value then Some(PrefixContains(IdSeparator)) else e0;
    var e2 := if prefix.Some? && IdSeparatorOld in prefix.value then Some(PrefixContains(IdSeparatorOld)) else e1;
    var e3 := if IdSeparator in agentName then Some(AgentNameContains(IdSeparator)) else e2;
    var e4 := if IdSeparatorOld in agentName then Some(AgentNameContains(IdSeparatorOld)) else e3;
    var e5 := if |agentName| == 0 then Some(AgentNameEmpty) else e4;
    var e6 := if !(baseId.Int? && baseId.i >= 0) then Some(BaseIdNotPositive) else e5;
    var e7 := if token.Some? && IdSeparator in token.value then Some(TokenContains(IdSeparator)) else e6;
    var e8 := if token.Some? && IdSeparatorOld in token.value then Some(TokenContains(IdSeparatorOld)) else e7;
    e8
  }

  /** Whether the constructor check that reports `e` fails for these arguments. */
  predicate Fails(e: ArgumentError, prefix: Option<string>, agentName: string, baseId: Value, token: Option<string>) {
    match e
    case PrefixContains(c) => IsSeparator(c) && prefix.Some? && c in prefix.value
    case AgentNameContains(c) => IsSeparator(c) && c in agentName
    case AgentNameEmpty => agentName == ""
    case BaseIdNotPositive => !(baseId.Int? && baseId.i >= 0)
    case TokenContains(c) => IsSeparator(c) && token.Some? && c in token.value
    case InvalidIdentityToken => false
    case InvalidBaseId => false
  }

  /** The position in the constructor of the check that reports `e`. */
  function CheckOrder(e: ArgumentError): nat {
    match e
    case PrefixContains(c) => if c == IdSeparator then 0 else 1
    case AgentNameContains(c) => if c == IdSeparator then 2 else 3
    case AgentNameEmpty => 4
    case BaseIdNotPositive => 5
    case TokenContains(c) => if c == IdSeparator then 6 else 7
    case InvalidIdentityToken => 8
    case InvalidBaseId => 9
  }

  /** The constructor raises exactly when some check fails, and it raises the last failing one. */
  lemma LastFailingCheckWins(prefix: Option<string>, agentName: string, baseId: Value, token: Option<string>)
    ensures ConstructorError(prefix, agentName, baseId, token).None? <==>
            forall e :: !Fails(e, prefix, agentName, baseId, token)
    ensures forall e :: ConstructorError(prefix, agentName, baseId, token) == Some(e) <==>
            (Fails(e, prefix, agentName, baseId, token) &&
             forall e' :: Fails(e', prefix, agentName, baseId, token) ==> CheckOrder(e') <= CheckOrder(e))
  {
    var r := ConstructorError(prefix, agentName, baseId, token);
    assert r.Some? ==> Fails(r.value, prefix, agentName, baseId, token);
    forall e | Fails(e, prefix, agentName, baseId, token)
      ensures r.Some? && CheckOrder(e) <= CheckOrder(r.value)
    {
    }
    // Distinct failing checks have distinct positions.
    forall e, e' | Fails(e, prefix, agentName, baseId, token) && Fails(e', prefix, agentName, baseId, token) && CheckOrder(e) == CheckOrder(e')
      ensures e == e'
    {
    }
  }

  /**
   * `AgentIdentity.new(prefix, agent_name, base_id, token, delimeter)`.
   * `generated` stands for the random token drawn when no token is given.
   */
  function New(prefix: Option<string>, agentName: string, baseId: Value, token: Option<string>,
               delimiter: Option<string>, generated: string): (r: Result<Identity, ArgumentError>)
    ensures r.Success? <==> forall e :: !Fails(e, prefix, agentName, baseId, token)
    ensures r.Failure? ==> Fails(r.error, prefix, agentName, baseId, token)
    ensures r.Failure? ==> forall e :: Fails(e, prefix, agentName, baseId, token) ==> CheckOrder(e) <= CheckOrder(r.error)
    ensures r.Success? ==>
      && r.value.prefix == prefix && r.value.agentName == agentName && Int(r.value.baseId) == baseId
      && r.value.token == (if token.Some? then token.value else generated)
      && r.value.delimiter == (if delimiter.Some? then delimiter.value else [IdSeparator])
  {
    LastFailingCheckWins(prefix, agentName, baseId, token);
    match ConstructorError(prefix, agentName, baseId, token)
    case Some(e) => Failure(e)
    case None => Success(Identity(prefix, agentName, token.GetOr(generated), baseId.i, delimiter.GetOr([IdSeparator])))
  }

  /** What the constructor guarantees of the identities it builds from a separator-free token. */
  predicate WellFormed(id: Identity) {
    && (id.prefix.Some? ==> FreeOfSeparators(id.prefix.value))
    && FreeOfSeparators(id.agentName) && id.agentName != ""
    && FreeOfSeparators(id.token)
    && id.baseId >= 0
  }

  lemma NewIsWellFormed(prefix: Option<string>, agentName: string, baseId: Value, token: Option<string>,
                        delimiter: Option<string>, generated: string)
    requires FreeOfSeparators(generated)
    ensures var r := New(prefix, agentName, baseId, token, delimiter, generated);
            r.Success? ==> WellFormed(r.value)
  {
    var r := New(prefix, agentName, baseId, token, delimiter, generated);
    if r.Success? {
      assert !Fails(PrefixContains(IdSeparator), prefix, agentName, baseId, token);
      assert !Fails(PrefixContains(IdSeparatorOld), prefix, agentName, baseId, token);
      assert !Fails(AgentNameContains(IdSeparator), prefix, agentName, baseId, token);
      assert !Fails(AgentNameContains(IdSeparatorOld), prefix, agentName, baseId, token);
      assert !Fails(AgentNameEmpty, prefix, agentName, baseId, token);
      assert !Fails(BaseIdNotPositive, prefix, agentName, baseId, token);
      assert !Fails(TokenContains(IdSeparator), prefix, agentName, baseId, token);
      assert !Fails(TokenContains(IdSeparatorOld), prefix, agentName, baseId, token);
    }
  }

  /** `"#{prefix}"`: a nil prefix prints as the empty string. */
  function PrefixText(prefix: Option<string>): string {
    prefix.GetOr("")
  }

  /** `to_s`: the four components, separated by the identity's delimiter. */
  function ToS(id: Identity): (s: string)
    ensures |s| == |PrefixText(id.prefix)| + |id.agentName| + |id.token| + |IntToS(id.baseId)| + 3 * |id.delimiter|
  {
    PrefixText(id.prefix) + id.delimiter + id.agentName + id.delimiter + id.token + id.delimiter + IntToS(id.baseId)
  }

  function Components(id: Identity): seq<string> {
    [PrefixText(id.prefix), id.agentName, id.token, IntToS(id.baseId)]
  }

  lemma ToSIsJoin(id: Identity)
    ensures ToS(id) == Join(Components(id), id.delimiter)
  {
    var c := Components(id);
    assert c[1..][1..][1..] == [IntToS(id.baseId)];
    assert Join(c[1..][1..], id.delimiter) == id.token + id.delimiter + IntToS(id.baseId);
  }

  lemma DigitsFreeOfSeparators(s: string)
    requires AllDigits(s)
    ensures FreeOfSeparators(s)
  {
    assert forall i :: 0 <= i < |s| ==> s[i] != IdSeparator && s[i] != IdSeparatorOld;
  }

  /** The serialised form of a well-formed identity splits back into its components. */
  lemma SplitToS(id: Identity)
    requires WellFormed(id)
    requires id.delimiter == [IdSeparator] || id.delimiter == [IdSeparatorOld]
    ensures Split(ToS(id), id.delimiter[0]) == Components(id)
  {
    var c := Components(id);
    NatToSCanonical(id.baseId);
    DigitsFreeOfSeparators(IntToS(id.baseId));
    ToSIsJoin(id);
    SplitJoin(c, id.delimiter[0]);
  }

  const NanitePrefix: string := "nanite-"
  const MapperPrefix: string := "mapper-"

  /** `valid_nanite?`, read as the documentation says: the name begins with `nanite-` or `mapper-`. */
  predicate IsNanite(name: string)
    ensures IsNanite(name) ==> |name| >= 7
  {
    StartsWith(name, NanitePrefix) || StartsWith(name, MapperPrefix)
  }

  /**
   * `valid_nanite?` as written: `name =~ /^(nanite|mapper)-/`, where Ruby's
   * `^` matches at the start of any line, not only at the start of the string.
   */
  predicate IsNaniteAsWritten(name: string)
    ensures IsNanite(name) ==> IsNaniteAsWritten(name)
    ensures IsNaniteAsWritten(name) ==> |name| >= 7
  {
    NaniteAtLineStart(name, true)
  }

  predicate NaniteAtLineStart(s: string, atLineStart: bool)
    ensures NaniteAtLineStart(s, atLineStart) ==> |s| >= 7
    decreases |s|
  {
    (atLineStart && IsNanite(s)) || (|s| > 0 && NaniteAtLineStart(s[1..], s[0] == '\n'))
  }

  /** The two readings agree on a name that holds no newline. */
  lemma {:induction false} AnchorsAgreeWithoutNewline(s: string, atLineStart: bool)
    requires '\n' !in s
    ensures NaniteAtLineStart(s, atLineStart) <==> atLineStart && IsNanite(s)
    decreases |s|
  {
    if |s| > 0 {
      AnchorsAgreeWithoutNewline(s[1..], false);
    }
  }

  lemma {:induction false} NaniteAtLineStartAt(s: string, k: nat, atLineStart: bool)
    requires k <= |s| && IsNanite(s[k..])
    requires k == 0 ==> atLineStart
    requires k > 0 ==> s[k - 1] == '\n'
    ensures NaniteAtLineStart(s, atLineStart)
    decreases k
  {
    if k > 0 {
      assert s[1..][k - 1..] == s[k..];
      NaniteAtLineStartAt(s[1..], k - 1, s[0] == '\n');
    }
  }

  lemma {:induction false} NaniteAtLineStartWitness(s: string, atLineStart: bool)
    requires NaniteAtLineStart(s, atLineStart)
    ensures exists k :: 0 <= k <= |s| && (k == 0 ==> atLineStart) && (k > 0 ==> s[k - 1] == '\n') && IsNanite(s[k..])
    decreases |s|
  {
    if !(atLineStart && IsNanite(s)) {
      var t := s[1..];
      NaniteAtLineStartWitness(t, s[0] == '\n');
      var k :| 0 <= k <= |t| && (k == 0 ==> s[0] == '\n') && (k > 0 ==> t[k - 1] == '\n') && IsNanite(t[k..]);
      assert s[k + 1..] == t[k..];
      if k > 0 {
        assert s[k] == t[k - 1];
      }
    } else {
      assert s[0..] == s;
    }
  }

  /** The as-written test holds exactly when some line of the name begins with `nanite-` or `mapper-`. */
  lemma IsNaniteAsWrittenIff(s: string)
    ensures IsNaniteAsWritten(s) <==>
            exists k :: 0 <= k <= |s| && (k == 0 || s[k - 1] == '\n') && IsNanite(s[k..])
  {
    if IsNaniteAsWritten(s) {
      NaniteAtLineStartWitness(s, true);
    }
    if k :| 0 <= k <= |s| && (k == 0 || s[k - 1] == '\n') && IsNanite(s[k..]) {
      NaniteAtLineStartAt(s, k, true);
    }
  }

  /**
   * Names that are not nanite names but that the line-anchored reading
   * treats as such, for example "ab-def\nnanite-a-t-1": a line of six
   * characters with one separator in it, then the serialised form of an
   * identity whose prefix is `nanite`. The seven characters stripped are not
   * a nanite prefix, and `valid?` as written accepts the remainder although
   * the name itself does not have the four fields of an identity, so the
   * corrected `valid?` rejects it.
   */
  lemma NaniteLineAnchorCounterexample(a: string, b: string, id: Identity)
    requires |a| + |b| == 5 && FreeOfSeparators(a) && FreeOfSeparators(b) && '\n' !in a
    requires WellFormed(id) && id.prefix == Some("nanite") && id.delimiter == [IdSeparator] && id.token != ""
    ensures var s := a + [IdSeparator] + b + "\n" + ToS(id);
            && IsNaniteAsWritten(s) && !IsNanite(s)
            && s[..7] != NanitePrefix && s[..7] != MapperPrefix
            && ValidFields(s[7..]) && !ValidFields(s) && !Valid(Some(s))
  {
    var s := a + [IdSeparator] + b + "\n" + ToS(id);
    var t := ToS(id);
    assert s[7..] == t;
    assert s[..7] == a + [IdSeparator] + b + "\n";
    assert s[|a|] == IdSeparator && s[6] == '\n';
    assert t == "nanite" + [IdSeparator] + id.agentName + id.delimiter + id.token + id.delimiter + IntToS(id.baseId);
    assert t[..7] == NanitePrefix;
    NaniteLineStartOfCounterexample(s, t);
    ValidToS(id);
    LeadingLineAddsField(a, b, id);
  }

  lemma NaniteLineStartOfCounterexample(s: string, t: string)
    requires |s| >= 7 && s[7..] == t && StartsWith(t, NanitePrefix) && s[6] == '\n'
    requires exists i :: 0 <= i < 6 && s[i] == IdSeparator
    ensures IsNaniteAsWritten(s) && !IsNanite(s)
  {
    NaniteAtLineStartAt(s, 7, true);
    var i :| 0 <= i < 6 && s[i] == IdSeparator;
    assert s[..7][i] == IdSeparator;
    assert NanitePrefix[i] != IdSeparator && MapperPrefix[i] != IdSeparator;
  }

  /** The serialised form of a well-formed identity passes the field test of `valid?`. */
  lemma ValidToS(id: Identity)
    requires WellFormed(id) && id.token != ""
    requires id.delimiter == [IdSeparator] || id.delimiter == [IdSeparatorOld]
    ensures Separate(ToS(id)) == Some(Fields(Components(id), id.delimiter))
    ensures ValidFields(ToS(id))
  {
    var t := ToS(id);
    SplitToS(id);
    NatToSCanonical(id.baseId);
    DigitsFreeOfSeparators(IntToS(id.baseId));
    assert id.delimiter[0] in t;
    assert IdSeparator in t <==> id.delimiter == [IdSeparator];
    IntToSCanonical(id.baseId);
    CanonicalIffRoundTrip(IntToS(id.baseId));
  }

  /** Gluing a line with one separator in front of a serialised identity gives five fields. */
  lemma LeadingLineAddsField(a: string, b: string, id: Identity)
    requires FreeOfSeparators(a) && FreeOfSeparators(b)
    requires WellFormed(id) && id.prefix.Some? && id.delimiter == [IdSeparator]
    ensures var s := a + [IdSeparator] + b + "\n" + ToS(id);
            Separate(s) == Some(Fields([a, b + "\n" + id.prefix.value] + Components(id)[1..], [IdSeparator]))
  {
    var s := a + [IdSeparator] + b + "\n" + ToS(id);
    var c := Components(id);
    var parts := [a, b + "\n" + c[0]] + c[1..];
    NatToSCanonical(id.baseId);
    DigitsFreeOfSeparators(IntToS(id.baseId));
    ToSIsJoin(id);
    JoinCons(c[0], c[1..], [IdSeparator]);
    JoinCons(b + "\n" + c[0], c[1..], [IdSeparator]);
    JoinCons(a, [b + "\n" + c[0]] + c[1..], [IdSeparator]);
    assert c == [c[0]] + c[1..];
    assert Join(parts, [IdSeparator]) == s;
    SplitJoin(parts, IdSeparator);
    assert s[|a|] == IdSeparator;
  }

  /** `serialized_from_nanite`: `nanite[7, nanite.length]`, which is nil for a name shorter than seven. */
  function SerializedFromNanite(nanite: string): (r: Option<string>)
    ensures r.Some? <==> |nanite| >= 7
    ensures r.Some? ==> nanite == nanite[..7] + r.value
  {
    if |nanite| < 7 then None else Some(nanite[7..])
  }

  /** `nanite_from_serialized`. */
  function NaniteFromSerialized(serialized: string): (r: string)
    ensures IsNanite(r) && StartsWith(r, NanitePrefix)
    ensures SerializedFromNanite(r) == Some(serialized)
  {
    assert (NanitePrefix + serialized)[7..] == serialized;
    NanitePrefix + serialized
  }

  lemma NaniteRoundTrip(nanite: string)
    requires StartsWith(nanite, NanitePrefix)
    ensures NaniteFromSerialized(SerializedFromNanite(nanite).value) == nanite
  {
    assert nanite == nanite[..7] + nanite[7..];
  }

  /** The first step of `valid?` and `parse`: drop a `nanite-` or `mapper-` prefix. */
  function StripNanite(s: string): (t: string)
    ensures IsNanite(s) ==> (s == NanitePrefix + t || s == MapperPrefix + t)
    ensures !IsNanite(s) ==> t == s
  {
    if IsNanite(s) then SerializedFromNanite(s).value else s
  }

  /** The first step of `valid?` and `parse` as written, with the line-anchored test. */
  function StripNaniteAsWritten(s: string): (t: string)
    ensures IsNaniteAsWritten(s) ==> |s| >= 7 && t == s[7..]
    ensures !IsNaniteAsWritten(s) ==> t == s
  {
    if IsNaniteAsWritten(s) then SerializedFromNanite(s).value else s
  }

  /** The fields of a serialised identity and the separator they were split on. */
  datatype Fields = Fields(parts: seq<string>, delimiter: string)

  /** Split on `-` if the string holds one, otherwise on `*` if it holds one. */
  function Separate(t: string): (r: Option<Fields>)
    ensures r.None? <==> FreeOfSeparators(t)
    ensures r.Some? && IdSeparator in t ==> r.value == Fields(Split(t, IdSeparator), [IdSeparator])
    ensures r.Some? && IdSeparator !in t ==> r.value == Fields(Split(t, IdSeparatorOld), [IdSeparatorOld])
  {
    if IdSeparator in t then Some(Fields(Split(t, IdSeparator), [IdSeparator]))
    else if IdSeparatorOld in t then Some(Fields(Split(t, IdSeparatorOld), [IdSeparatorOld]))
    else None
  }

  /** The test `valid?` applies once the nanite prefix is gone. */
  predicate ValidFields(t: string) {
    match Separate(t)
    case None => false
    case Some(f) =>
      |f.parts| == 4 && |f.parts[1]| > 0 && |f.parts[2]| > 0 && IntToS(ToI(f.parts[3])) == f.parts[3]
  }

  /** `valid?`; `None` stands for nil and for any object that is not a string. */
  predicate Valid(serialized: Option<string>)
    ensures Valid(serialized) ==> serialized.Some? && !FreeOfSeparators(StripNanite(serialized.value))
  {
    serialized.Some? && ValidFields(StripNanite(serialized.value))
  }

  /** `valid?` as written, stripping a nanite prefix found by the line-anchored test. */
  predicate ValidAsWritten(serialized: Option<string>)
    ensures ValidAsWritten(serialized) ==> serialized.Some? && !FreeOfSeparators(StripNaniteAsWritten(serialized.value))
  {
    serialized.Some? && ValidFields(StripNaniteAsWritten(serialized.value))
  }

  /** `valid?` accepts exactly four fields whose second and third are non-empty and whose fourth is a canonical decimal. */
  lemma ValidCharacterization(s: string)
    ensures Valid(Some(s)) <==>
      var f := Separate(StripNanite(s));
      && f.Some? && |f.value.parts| == 4
      && f.value.parts[1] != "" && f.value.parts[2] != ""
      && IsCanonicalDecimal(f.value.parts[3])
  {
    var f := Separate(StripNanite(s));
    if f.Some? && |f.value.parts| == 4 {
      CanonicalIffRoundTrip(f.value.parts[3]);
    }
  }

  /** `parse`: split, check that the four components are present and the base id is canonical, then construct. */
  function Parse(serializedId: string): (r: Result<Identity, ArgumentError>)
    ensures r.Success? ==>
      var f := Separate(StripNanite(serializedId));
      && f.Some? && |f.value.parts| >= 4 && r.value.delimiter == f.value.delimiter
      && r.value.prefix == Some(f.value.parts[0]) && r.value.agentName == f.value.parts[1]
      && r.value.token == f.value.parts[2] && IntToS(r.value.baseId) == f.value.parts[3]
  {
    ParseStripped(StripNanite(serializedId))
  }

  /** `parse` as written, stripping a nanite prefix found by the line-anchored test. */
  function ParseAsWritten(serializedId: string): (r: Result<Identity, ArgumentError>)
    ensures r.Success? ==>
      var f := Separate(StripNaniteAsWritten(serializedId));
      && f.Some? && |f.value.parts| >= 4 && r.value.delimiter == f.value.delimiter
      && r.value.prefix == Some(f.value.parts[0]) && r.value.agentName == f.value.parts[1]
      && r.value.token == f.value.parts[2] && IntToS(r.value.baseId) == f.value.parts[3]
  {
    ParseStripped(StripNaniteAsWritten(serializedId))
  }

  /** The rest of `parse`, once the nanite prefix has been dealt with. */
  function ParseStripped(t: string): (r: Result<Identity, ArgumentError>)
    ensures r.Success? ==>
      var f := Separate(t);
      && f.Some? && |f.value.parts| >= 4 && r.value.delimiter == f.value.delimiter
      && r.value.prefix == Some(f.value.parts[0]) && r.value.agentName == f.value.parts[1]
      && r.value.token == f.value.parts[2] && IntToS(r.value.baseId) == f.value.parts[3]
  {
    match Separate(t)
    case None => Failure(InvalidIdentityToken)
    case Some(f) =>
      if |f.parts| < 4 then Failure(InvalidIdentityToken)
      else if IntToS(ToI(f.parts[3])) != f.parts[3] then Failure(InvalidBaseId)
      else
        // The token is present, so the generated one ("") is never used.
        New(Some(f.parts[0]), f.parts[1], Int(ToI(f.parts[3])), Some(f.parts[2]), Some(f.delimiter), "")
  }

  /** `parse` raises its own errors exactly when a component is missing or the base id is not canonical. */
  lemma ParseErrors(s: string)
    ensures var f := Separate(StripNanite(s));
      && (Parse(s) == Failure(InvalidIdentityToken) <==> f.None? || |f.value.parts| < 4)
      && (Parse(s) == Failure(InvalidBaseId) <==> f.Some? && |f.value.parts| >= 4 && !IsCanonicalDecimal(f.value.parts[3]))
  {
    var f := Separate(StripNanite(s));
    if f.Some? && |f.value.parts| >= 4 {
      CanonicalIffRoundTrip(f.value.parts[3]);
    }
  }

  /** On a string `valid?` accepts, `parse` can fail only in the constructor. */
  lemma ParseOfValid(s: string)
    requires Valid(Some(s))
    ensures Parse(s).Failure? ==> CheckOrder(Parse(s).error) < 8
  {
    ValidCharacterization(s);
    ParseErrors(s);
  }

  /** The serialised form starts with `nanite-` or `mapper-` only for those two prefixes and the `-` delimiter. */
  lemma NaniteOnlyForNanitePrefix(id: Identity)
    requires WellFormed(id) && id.prefix.Some?
    requires id.delimiter == [IdSeparator] || id.delimiter == [IdSeparatorOld]
    requires !(id.delimiter == [IdSeparator] && id.prefix.value in {"nanite", "mapper"})
    ensures !IsNanite(ToS(id))
  {
    var s := ToS(id);
    var p := id.prefix.value;
    var c := id.delimiter[0];
    NatToSCanonical(id.baseId);
    DigitsFreeOfSeparators(IntToS(id.baseId));
    var rest := id.agentName + id.delimiter + id.token + id.delimiter + IntToS(id.baseId);
    assert s == p + [c] + rest;
    // Position 6 of both nanite prefixes holds '-', positions 0 to 5 do not.
    assert forall i :: 0 <= i < 6 ==> NanitePrefix[i] != IdSeparator && MapperPrefix[i] != IdSeparator;
    if |s| >= 7 {
      if c == IdSeparatorOld {
        assert IdSeparator !in s;
        assert s[..7][6] == s[6] != IdSeparator;
      } else if |p| < 6 {
        assert s[..7][|p|] == s[|p|] == IdSeparator;
      } else if |p| > 6 {
        assert s[..7][6] == p[6] != IdSeparator;
      } else {
        assert s[..7][..6] == p;
        assert NanitePrefix[..6] == "nanite" && MapperPrefix[..6] == "mapper";
      }
    }
  }

  /** Parsing the serialised form of a well-formed identity gives the identity back. */
  lemma ParseToS(id: Identity)
    requires WellFormed(id) && id.prefix.Some?
    requires id.delimiter == [IdSeparator] || id.delimiter == [IdSeparatorOld]
    requires !(id.delimiter == [IdSeparator] && id.prefix.value in {"nanite", "mapper"})
    ensures Parse(ToS(id)) == Success(id)
  {
    var s := ToS(id);
    var c := id.delimiter[0];
    NaniteOnlyForNanitePrefix(id);
    SplitToS(id);
    NatToSCanonical(id.baseId);
    DigitsFreeOfSeparators(IntToS(id.baseId));
    assert IdSeparator in s <==> c == IdSeparator;
    assert c in s;
    assert Separate(s) == Some(Fields(Components(id), id.delimiter));
    ToIOfIntToS(id.baseId);
    var r := Parse(s);
    assert r.Success? ==> r.value == id;
    assert !Fails(TokenContains(IdSeparator), Some(id.prefix.value), id.agentName, Int(id.baseId), Some(id.token));
    assert forall e :: !Fails(e, id.prefix, id.agentName, Int(id.baseId), Some(id.token));
  }

  /** The serialised form of a well-formed identity with a `-` delimiter and a non-empty token is valid and parses back. */
  lemma IdentityParsesBack(id: Identity)
    requires WellFormed(id) && id.prefix.Some? && id.delimiter == [IdSeparator] && id.token != ""
    requires id.prefix.value !in {"nanite", "mapper"}
    ensures Valid(Some(ToS(id))) && Parse(ToS(id)) == Success(id)
  {
    ValidToS(id);
    NaniteOnlyForNanitePrefix(id);
    ParseToS(id);
  }

  /** Serialising a parsed identity restores the string, unless it ended with its separator. */
  lemma ToSParse(s: string)
    requires Valid(Some(s)) && !IsNanite(s) && Parse(s).Success?
    requires s[|s| - 1] != IdSeparator && s[|s| - 1] != IdSeparatorOld
    ensures ToS(Parse(s).value) == s
  {
    var f := Separate(s).value;
    var c := f.delimiter[0];
    assert f.delimiter == [c];
    SplitKeepsAll(s, c);
    JoinRawSplit(s, c);
    var id := Parse(s).value;
    assert Components(id) == f.parts;
    ToSIsJoin(id);
  }

  /**
   * A trailing separator is dropped by `split`: the string is still valid
   * and parses to the same identity, whose serialised form lacks it.
   */
  lemma TrailingSeparatorIsLost(id: Identity)
    requires WellFormed(id) && id.prefix.Some? && id.delimiter == [IdSeparator] && id.token != ""
    requires id.prefix.value !in {"nanite", "mapper"}
    ensures var s := ToS(id) + [IdSeparator];
            && Valid(Some(s)) && Parse(s) == Success(id) && ToS(Parse(s).value) != s
  {
    var s := ToS(id) + [IdSeparator];
    SplitWithTrailingSeparator(id);
    NaniteOnlyForNanitePrefix(id);
    if |ToS(id)| >= 7 {
      assert s[..7] == ToS(id)[..7];
    }
    ValidToS(id);
    ParseToS(id);
    assert IdSeparator in s;
    assert Separate(StripNanite(s)) == Separate(StripNanite(ToS(id)));
  }

  lemma SplitWithTrailingSeparator(id: Identity)
    requires WellFormed(id) && id.prefix.Some? && id.delimiter == [IdSeparator]
    ensures Split(ToS(id) + [IdSeparator], IdSeparator) == Components(id)
  {
    var s := ToS(id) + [IdSeparator];
    var c := Components(id);
    NatToSCanonical(id.baseId);
    DigitsFreeOfSeparators(IntToS(id.baseId));
    ToSIsJoin(id);
    JoinSnoc(c, "", [IdSeparator]);
    assert Join(c + [""], [IdSeparator]) == s;
    RawSplitJoin(c + [""], IdSeparator);
    assert (c + [""])[..|c|] == c;
    assert c[3] != "";
    assert DropTrailingEmpty(c) == c;
  }

  /** `==`: prefix, agent name, token and base id agree; the delimiter is not compared. */
  predicate SameIdentity(a: Identity, b: Identity)
    ensures SameIdentity(a, b) <==> a.(delimiter := b.delimiter) == b
  {
    a.prefix == b.prefix && a.agentName == b.agentName && a.token == b.token && a.baseId == b.baseId
  }

  /** The `-` and `*` forms of one identity are different strings that parse to equal identities. */
  lemma DashAndStarFormsAreEqual(id: Identity)
    requires WellFormed(id) && id.prefix.Some? && id.prefix.value !in {"nanite", "mapper"}
    ensures var dash := id.(delimiter := [IdSeparator]);
            var star := id.(delimiter := [IdSeparatorOld]);
            && ToS(dash) != ToS(star)
            && Parse(ToS(dash)).Success? && Parse(ToS(star)).Success?
            && SameIdentity(Parse(ToS(dash)).value, Parse(ToS(star)).value)
            && Parse(ToS(dash)).value != Parse(ToS(star)).value
  {
    var dash := id.(delimiter := [IdSeparator]);
    var star := id.(delimiter := [IdSeparatorOld]);
    ParseToS(dash);
    ParseToS(star);
    var n := |PrefixText(id.prefix)|;
    assert ToS(dash)[n] == IdSeparator && ToS(star)[n] == IdSeparatorOld;
  }

  /** A nil prefix prints as the empty string, so it comes back from `parse` as an empty prefix. */
  lemma NilPrefixParsesAsEmpty(id: Identity)
    requires WellFormed(id) && id.prefix.None?
    requires id.delimiter == [IdSeparator] || id.delimiter == [IdSeparatorOld]
    ensures Parse(ToS(id)) == Success(id.(prefix := Some("")))
  {
    var id' := id.(prefix := Some(""));
    assert ToS(id') == ToS(id);
    ParseToS(id');
  }

  /** No component of the identity holds a newline. */
  predicate NewlineFree(id: Identity) {
    '\n' !in PrefixText(id.prefix) && '\n' !in id.agentName && '\n' !in id.token && '\n' !in id.delimiter
  }

  lemma ToSNewlineFree(id: Identity)
    requires NewlineFree(id) && id.baseId >= 0
    ensures '\n' !in ToS(id)
  {
    var d := IntToS(id.baseId);
    NatToSCanonical(id.baseId);
    assert forall i :: 0 <= i < |d| ==> d[i] != '\n';
  }

  /** On a name without a newline, the program as written and the corrected one agree. */
  lemma AsWrittenAgreesWithoutNewline(s: string)
    requires '\n' !in s
    ensures StripNaniteAsWritten(s) == StripNanite(s)
    ensures ValidAsWritten(Some(s)) == Valid(Some(s))
    ensures ParseAsWritten(s) == Parse(s)
  {
    AnchorsAgreeWithoutNewline(s, true);
  }

  /** The round trip of `ParseToS` holds of `parse` as written when no component holds a newline. */
  lemma ParseToSAsWritten(id: Identity)
    requires WellFormed(id) && id.prefix.Some? && NewlineFree(id)
    requires id.delimiter == [IdSeparator] || id.delimiter == [IdSeparatorOld]
    requires !(id.delimiter == [IdSeparator] && id.prefix.value in {"nanite", "mapper"})
    ensures ParseAsWritten(ToS(id)) == Success(id)
  {
    ToSNewlineFree(id);
    AsWrittenAgreesWithoutNewline(ToS(id));
    ParseToS(id);
  }

  /** `valid?` and `parse` as written accept the serialised form and give the identity back, when no component holds a newline. */
  lemma IdentityParsesBackAsWritten(id: Identity)
    requires WellFormed(id) && id.prefix.Some? && id.delimiter == [IdSeparator] && id.token != ""
    requires id.prefix.value !in {"nanite", "mapper"} && NewlineFree(id)
    ensures ValidAsWritten(Some(ToS(id))) && ParseAsWritten(ToS(id)) == Success(id)
  {
    ToSNewlineFree(id);
    AsWrittenAgreesWithoutNewline(ToS(id));
    IdentityParsesBack(id);
  }

  /** The identity "x-a\nnanite-t-0" serialises to, with a newline in its agent name. */
  const NewlineIdentity: Identity := Identity(Some("x"), "a\nnanite", "t", 0, [IdSeparator])

  lemma NewlineIdentityWellFormed()
    ensures WellFormed(NewlineIdentity)
  {
    var a := NewlineIdentity.agentName;
    assert forall i :: 0 <= i < |a| ==> !IsSeparator(a[i]);
    assert FreeOfSeparators("x") && FreeOfSeparators("t");
  }

  lemma NewlineIdentityText()
    ensures ToS(NewlineIdentity) == "x-a\nnanite-t-0"
  {
    NatToSCanonical(0);
    assert IntToS(0) == "0";
  }

  lemma NewlineTextIsNaniteAsWritten(s: string)
    requires s == "x-a\nnanite-t-0"
    ensures IsNaniteAsWritten(s) && StripNaniteAsWritten(s) == "ite-t-0"
  {
    assert s[4..][..7] == NanitePrefix;
    NaniteAtLineStartAt(s, 4, true);
  }

  lemma NewlineRemainderFields(t: string)
    requires t == "ite-t-0"
    ensures Separate(t) == Some(Fields(["ite", "t", "0"], [IdSeparator]))
  {
    var parts := ["ite", "t", "0"];
    JoinCons("t", ["0"], [IdSeparator]);
    JoinCons("ite", ["t", "0"], [IdSeparator]);
    assert Join(parts, [IdSeparator]) == t;
    assert forall p :: p in parts ==> IdSeparator !in p;
    SplitJoin(parts, IdSeparator);
    assert t[3] == IdSeparator;
  }

  /**
   * A newline inside a component breaks the round trip of the program as
   * written: "x-a\nnanite-t-0" has a line starting with `nanite-`, so seven
   * characters are stripped and the three fields left make `parse` raise.
   */
  lemma NewlineBreaksRoundTripAsWritten()
    ensures WellFormed(NewlineIdentity) && Parse(ToS(NewlineIdentity)) == Success(NewlineIdentity)
    ensures ParseAsWritten(ToS(NewlineIdentity)) == Failure(InvalidIdentityToken)
  {
    NewlineIdentityWellFormed();
    ParseToS(NewlineIdentity);
    NewlineIdentityText();
    NewlineTextIsNaniteAsWritten(ToS(NewlineIdentity));
    NewlineRemainderFields("ite-t-0");
  }
}
