# Agent identities, cookbook repositories and agent helpers

This project is a Dafny model of a set of small, sequential routines from an
agent framework. The framework is written in Ruby. Each routine is proved
against a specification.

- **Agent identities** (`AgentIdentity`). An identity has a prefix, an agent
  name, a token and a base id, serialised as `<prefix>-<agent>-<token>-<base id>`.
  The module covers:
  - the validating constructor, whose chain of checks lets the last failing
    check decide the message;
  - `to_s`;
  - the validity test `valid?` and the parser `parse`, which also accept the
    older `*` separator and the `nanite-` / `mapper-` prefixed names;
  - the nanite name helpers;
  - `==`, which ignores the delimiter.
- **Cookbook repositories** (`CookbookRepository`). A value built positionally
  or from a hash. Its `to_s` turns the url, tag and cookbooks path into a
  string usable as a Unix file name.
- **Multiplexer** (`Multiplexer`). A class holding a list of targets, updated
  in place by `add` and `remove`. A forwarded call gives one result per
  target, in target order.
- **Identity resolution** (`CommonParser`). `resolve_identity` checks the
  `base_id` option. It then applies the defaults `rs` and `mapper` and stores
  the serialised identity under `identity` in the options hash, in place. A
  bad base id ends the script with `exit(1)`, which the model returns as an
  error outcome.
- **Key symbolisation** (`AgentUtils`). `symbolize` copies a hash in a loop,
  turning string keys into symbols.
- **Recipe instantiation** (`RecipeInstantiation`). A positional value object
  with `serialized_members` and `title`.

Supporting modules:

- `Wrappers`: Option and Result.
- `RubyValues`: the dynamically typed values the code passes around, and
  insertion-ordered hashes.
- `RubyStrings`: `String#split`, `Array#join` and `String#index`.
- `RubyIntegers`: `String#to_i` and `Integer#to_s`.

These implement the Ruby library semantics the code relies on:

- `split` keeps leading empty fields and drops trailing ones.
- Only `nil` and `false` are falsy.
- `x.to_i.to_s == x` holds exactly for canonical decimals.
- A later store under an existing key keeps the key's position.

The random token `Nanite::Identity.generate` is given as the parameter
`generated`. The scripts' `exit(1)` and the Ruby exceptions that can escape
become error values.

## Model

| member | source | states |
|---|---|---|
| AgentIdentity.LastFailingCheckWins | agents/lib/common/agent_identity.rb:33-42 | the check chain ends with no error iff no check fails; otherwise the error is exactly the failing check that comes last in source order |
| AgentIdentity.New | agents/lib/common/agent_identity.rb:32-49 | it succeeds iff no check fails (separator in prefix, agent name or token; empty agent name; base id not an integer >= 0). On failure it raises a failing check, no earlier than any other failing one. On success it keeps the fields, uses the generated token when none is given, and defaults the delimiter to `-` |
| AgentIdentity.NewIsWellFormed | agents/lib/common/agent_identity.rb:33-47 | every identity the constructor builds (with a separator-free generated token) has separator-free components, a non-empty agent name and a base id >= 0 |
| AgentIdentity.ToS | agents/lib/common/agent_identity.rb:143-145 | the serialised form is as long as the four components plus three delimiters; ToSIsJoin and SplitToS state its content |
| AgentIdentity.ToSIsJoin | agents/lib/common/agent_identity.rb:143-145 | `to_s` is the four components (a nil prefix as the empty string) joined by the delimiter |
| AgentIdentity.SplitToS | agents/lib/common/agent_identity.rb:143-145 | splitting the serialised form of a well-formed identity on its delimiter gives back its four components |
| AgentIdentity.Separate | agents/lib/common/agent_identity.rb:62-68 | there is no split iff the string has neither `-` nor `*`; `-` is preferred to `*` when both occur |
| AgentIdentity.Valid | agents/lib/common/agent_identity.rb:59-74 | `valid?` is false for nil and non-strings and for strings that, once the nanite prefix is stripped, have neither `-` nor `*`; ValidCharacterization states the rest |
| AgentIdentity.ValidAsWritten | agents/lib/common/agent_identity.rb:59-74 | the same test with the nanite prefix found by the line-anchored match of line 114 |
| AgentIdentity.ValidCharacterization | agents/lib/common/agent_identity.rb:59-74 | `valid?` holds iff, after the nanite prefix is stripped, the split gives exactly four parts, parts 1 and 2 are non-empty and part 3 is a canonical decimal |
| AgentIdentity.ValidToS | agents/lib/common/agent_identity.rb:59-74 | the serialised form of a well-formed identity with a non-empty token splits into its components and passes the field test of `valid?` |
| AgentIdentity.Parse | agents/lib/common/agent_identity.rb:86-102 | a parsed identity has the first four split fields as prefix, agent name, token and base id, and keeps the separator it split on |
| AgentIdentity.ParseStripped | agents/lib/common/agent_identity.rb:89-101 | after the nanite step, a successful parse has the first four split fields as prefix, agent name, token and base id, and the separator it split on |
| AgentIdentity.ParseAsWritten | agents/lib/common/agent_identity.rb:86-102 | `parse` as written, with the line-anchored nanite test; a successful parse has the four split fields of the stripped string |
| AgentIdentity.ParseErrors | agents/lib/common/agent_identity.rb:89-99 | `parse` raises "Invalid agent identity token" iff there is no separator or fewer than four fields, and the Base ID error iff the fourth field is not a canonical decimal |
| AgentIdentity.ParseOfValid | agents/lib/common/agent_identity.rb:59-101 | on a string `valid?` accepts, `parse` can only fail in the constructor |
| AgentIdentity.NaniteOnlyForNanitePrefix | agents/lib/common/agent_identity.rb:113-115 | a serialised identity looks like a nanite name only when its prefix is `nanite` or `mapper` with the `-` delimiter |
| AgentIdentity.ParseToS | agents/lib/common/agent_identity.rb:86-102 | `parse(id.to_s) == id` for a well-formed identity with a prefix, a `-` or `*` delimiter, and not a `nanite`/`mapper` prefix with `-` |
| AgentIdentity.IdentityParsesBack | agents/lib/common/agent_identity.rb:59-102 | with a `-` delimiter and a non-empty token, the serialised form is valid and parses back to the identity |
| AgentIdentity.NilPrefixParsesAsEmpty | agents/lib/common/agent_identity.rb:86-102 | a nil prefix prints as the empty string, so `parse` gives back the identity with the prefix `""` |
| AgentIdentity.ParseToSAsWritten | agents/lib/common/agent_identity.rb:86-102 | `parse(id.to_s) == id` holds of `parse` as written, under the conditions of ParseToS, when no component holds a newline |
| AgentIdentity.IdentityParsesBackAsWritten | agents/lib/common/agent_identity.rb:59-102 | `valid?` and `parse` as written accept the `-` form and give the identity back, under the conditions of IdentityParsesBack, when no component holds a newline |
| AgentIdentity.AsWrittenAgreesWithoutNewline | agents/lib/common/agent_identity.rb:59-115 | on a string without a newline, the nanite step, `valid?` and `parse` as written equal their corrected readings |
| AgentIdentity.NewlineBreaksRoundTripAsWritten | agents/lib/common/agent_identity.rb:86-115 | `Identity(x, "a\nnanite", t, 0)` is well formed and parses back in the corrected reading, but `parse` as written raises "Invalid agent identity token" on its `to_s` |
| AgentIdentity.ToSParse | agents/lib/common/agent_identity.rb:86-102 | `parse(s).to_s == s` for a valid, non-nanite string that parses and does not end with a separator |
| AgentIdentity.TrailingSeparatorIsLost | agents/lib/common/agent_identity.rb:89-90 | a serialised identity followed by one more `-` is still valid and parses to the same identity, whose `to_s` no longer has the trailing separator |
| AgentIdentity.SplitWithTrailingSeparator | agents/lib/common/agent_identity.rb:90 | `split` drops the trailing empty field, so the serialised form plus `-` splits into the same four components |
| AgentIdentity.SerializedFromNanite | agents/lib/common/agent_identity.rb:124-126 | the result is nil iff the name is shorter than seven characters; otherwise it is the name minus its first seven characters |
| AgentIdentity.NaniteFromSerialized | agents/lib/common/agent_identity.rb:135-137 | the result starts with `nanite-` and `serialized_from_nanite` maps it back to its argument |
| AgentIdentity.NaniteRoundTrip | agents/lib/common/agent_identity.rb:124-137 | a name starting with `nanite-` is rebuilt by `nanite_from_serialized(serialized_from_nanite(name))` |
| AgentIdentity.IsNanite | agents/lib/common/agent_identity.rb:113-115 | a name beginning with `nanite-` or `mapper-` has at least seven characters |
| AgentIdentity.IsNaniteAsWritten | agents/lib/common/agent_identity.rb:113-115 | the line-anchored match accepts every name the begins-with test accepts, and only names of seven or more characters |
| AgentIdentity.IsNaniteAsWrittenIff | agents/lib/common/agent_identity.rb:114 | the line-anchored match holds iff the name or some line after a newline begins with `nanite-` or `mapper-` |
| AgentIdentity.StripNaniteAsWritten | agents/lib/common/agent_identity.rb:87 | when the line-anchored match holds, the first seven characters are dropped; otherwise the string is kept |
| AgentIdentity.StripNanite | agents/lib/common/agent_identity.rb:61 | a nanite name loses exactly its `nanite-` or `mapper-` prefix; anything else is kept |
| AgentIdentity.SameIdentity | agents/lib/common/agent_identity.rb:155-161 | two identities are `==` iff they are equal once the delimiter is disregarded |
| AgentIdentity.DashAndStarFormsAreEqual | agents/lib/common/agent_identity.rb:155-161 | the `-` and `*` forms of an identity are different strings that parse to identities that differ only in the delimiter and are `==` |
| AgentIdentity.AnchorsAgreeWithoutNewline | agents/lib/common/agent_identity.rb:113-115 | on a name without a newline, the line-anchored match of `valid_nanite?` is the same as a plain prefix test |
| AgentIdentity.NaniteLineAnchorCounterexample | agents/lib/common/agent_identity.rb:114 | names such as "ab-def\nnanite-a-t-1" pass `valid_nanite?` as written although they do not start with `nanite-`. What follows their first seven characters passes the field test of `valid?`, while the whole name, with five fields, does not, so the corrected `valid?` rejects them |
| RubyStrings.SplitJoin | agents/lib/common/agent_identity.rb:63-65 | splitting the join of separator-free fields whose last one is non-empty gives the fields back |
| RubyStrings.JoinSplit | lib/payload_types/lib/payload_types/cookbook_repository.rb:96 | joining the `split` of a string restores it minus its trailing separators |
| RubyStrings.Index | lib/payload_types/lib/payload_types/cookbook_repository.rb:95 | `index` finds the first occurrence of the pattern, or nil when there is none |
| RubyIntegers.CanonicalIffRoundTrip | agents/lib/common/agent_identity.rb:73 | `x.to_i.to_s == x` iff `x` is `0` or an optional `-` followed by digits not starting with `0` |
| RubyIntegers.AbsRoundTrip | scripts/lib/common_parser.rb:71-72 | `x.to_i.abs.to_s == x` iff `x` is `0` or digits not starting with `0` |
| CookbookRepository.New | lib/payload_types/lib/payload_types/cookbook_repository.rb:63-71 | the protocol is the symbol of the first argument (NoMethodError unless it is a string or symbol). Every later field is the argument at its position, or nil when fewer arguments are given |
| CookbookRepository.SerializedMembersOfNew | lib/payload_types/lib/payload_types/cookbook_repository.rb:63-71 | built from 1 to 7 arguments (the first a symbol), the serialized members are those arguments padded with nil |
| CookbookRepository.ExtraArgumentsIgnored | lib/payload_types/lib/payload_types/cookbook_repository.rb:63-71 | arguments beyond the seventh do not matter |
| CookbookRepository.SerializedMembers | lib/payload_types/lib/payload_types/cookbook_repository.rb:86-88 | the seven fields in constructor order; NewOfSerializedMembers and SerializedMembersOfNew relate it to the constructor |
| CookbookRepository.NewOfSerializedMembers | lib/payload_types/lib/payload_types/cookbook_repository.rb:86-88 | `new(*serialized_members)` rebuilds the repository |
| CookbookRepository.FromHash | lib/payload_types/lib/payload_types/cookbook_repository.rb:81-83 | `from_hash` fails iff `:protocol` is not a string or symbol. The protocol is the symbol of `h[:protocol]`, and every other field is taken from the hash under its name (nil when absent) |
| CookbookRepository.FromHashOfMembers | lib/payload_types/lib/payload_types/cookbook_repository.rb:81-88 | `from_hash` of the hash of a repository's fields reproduces the repository |
| CookbookRepository.ToFilename | lib/payload_types/lib/payload_types/cookbook_repository.rb:112-114 | same length; every `/` becomes `-` and every other character is unchanged, so no `/` is left |
| CookbookRepository.CollapseDashes | lib/payload_types/lib/payload_types/cookbook_repository.rb:97 | the result is no longer than the input, keeps the first character, adds no new characters and has no `--` |
| CookbookRepository.CollapseKeepsOthers | lib/payload_types/lib/payload_types/cookbook_repository.rb:97 | collapsing keeps all characters other than `-`, in order |
| CookbookRepository.CollapseRun | lib/payload_types/lib/payload_types/cookbook_repository.rb:97 | a run of two dashes collapses like a single dash, so every run of dashes leaves exactly one |
| CookbookRepository.CollapseWithoutRuns | lib/payload_types/lib/payload_types/cookbook_repository.rb:97 | a string with no `--` is left unchanged |
| CookbookRepository.CollapseIdempotent | lib/payload_types/lib/payload_types/cookbook_repository.rb:97 | collapsing twice is collapsing once |
| CookbookRepository.AfterScheme | lib/payload_types/lib/payload_types/cookbook_repository.rb:95 | with no `://` the url is kept; otherwise the url is what precedes the first `://`, then `://`, then the result |
| CookbookRepository.BaseName | lib/payload_types/lib/payload_types/cookbook_repository.rb:95-97 | the base part has no `--`; BaseNameReference and BaseNameCharacters state its content |
| CookbookRepository.BaseNameReference | lib/payload_types/lib/payload_types/cookbook_repository.rb:95-97 | splitting on `/`, replacing `: & % + .` by `-` in each component, joining with `-` and collapsing runs is the same as dashing every `/ : & % + .` of the part after the scheme (minus its trailing slashes) and collapsing runs |
| CookbookRepository.BaseNameCharacters | lib/payload_types/lib/payload_types/cookbook_repository.rb:96-97 | the base part holds none of `/ : & % + .` and no `--` |
| CookbookRepository.ToS | lib/payload_types/lib/payload_types/cookbook_repository.rb:94-101 | `to_s` fails iff the url is not a string, or a set tag or cookbooks path is not a string. A bad tag raises TypeError; the other cases raise NoMethodError |
| CookbookRepository.ToSLayout | lib/payload_types/lib/payload_types/cookbook_repository.rb:94-101 | the result starts with the base part, followed by `-` and the tag if the tag is set, and then by `-` and the filename form of the path if the path is set |
| CookbookRepository.ToSIgnoresCredentials | lib/payload_types/lib/payload_types/cookbook_repository.rb:94-101 | `to_s` depends only on url, tag and cookbooks path |
| CookbookRepository.ToSSlashOnlyFromTag | lib/payload_types/lib/payload_types/cookbook_repository.rb:94-101 | the result contains `/` iff the tag is set and contains `/` |
| Multiplexer.Multiplexer.constructor | agents/lib/common/multiplexer.rb:32-34 | the targets are stored in the order given |
| Multiplexer.Multiplexer.Add | agents/lib/common/multiplexer.rb:43-46 | the target is appended iff it was absent, so it is always present afterwards. A duplicate-free list stays duplicate-free. The list is returned |
| Multiplexer.Multiplexer.Remove | agents/lib/common/multiplexer.rb:55-58 | the new list is the old one with every element equal to the target removed; the target is absent afterwards; a duplicate-free list stays duplicate-free; the list is returned |
| Multiplexer.Without | agents/lib/common/multiplexer.rb:56 | the removed element is absent afterwards, and the list does not grow |
| Multiplexer.WithoutMembers | agents/lib/common/multiplexer.rb:56 | exactly the elements other than the target survive |
| Multiplexer.WithoutConcat | agents/lib/common/multiplexer.rb:56 | removal distributes over concatenation, so the survivors keep their relative order |
| Multiplexer.WithoutAbsent | agents/lib/common/multiplexer.rb:55-58 | removing an absent target leaves the list unchanged |
| Multiplexer.WithoutNoDuplicates | agents/lib/common/multiplexer.rb:55-58 | removal keeps a list free of duplicates |
| Multiplexer.AddThenRemove | agents/lib/common/multiplexer.rb:43-58 | adding an absent target and removing it restores the list |
| Multiplexer.ForwardAll | agents/lib/common/multiplexer.rb:68-70 | the fold gives one result per target; result `i` is the call on target `i` |
| Multiplexer.Multiplexer.Forward | agents/lib/common/multiplexer.rb:68-70 | a forwarded call gives one result per current target, in target order |
| CommonParser.BaseIdCheck | scripts/lib/common_parser.rb:71-75 | the base id passes iff it is a string that is `0` or digits not starting with `0`. The value is its `to_i`, and printing it gives the string. Otherwise strings and integers exit with status 1; values without `to_i` raise NoMethodError |
| CommonParser.BaseIdAccepted | scripts/lib/common_parser.rb:71-75 | a string base id avoids `exit(1)` iff it is a canonical natural |
| CommonParser.BaseIdRejections | scripts/lib/common_parser.rb:71-75 | `"-5"`, `"007"`, `"+5"`, `"abc"` and `""` exit with status 1 |
| CommonParser.ConstructorInputs | scripts/lib/common_parser.rb:76-77 | prefix and agent default to `rs` and `mapper` when nil or false. Their values, and a set token, must be strings, or the constructor raises NoMethodError |
| CommonParser.IdentityFor | scripts/lib/common_parser.rb:69-78 | no identity is built iff the base id is nil or false. A built identity has the checked base id, the defaulted prefix and agent name, the given or generated token, and the `-` delimiter |
| CommonParser.Resolve | scripts/lib/common_parser.rb:69-79 | it fails iff building the identity fails, and leaves the options as they are when the base id is missing |
| CommonParser.DefaultIdentityForm | scripts/lib/common_parser.rb:76-77 | with no prefix and no agent, `identity` becomes `rs-mapper-<token>-<base id>`. The token is the `token` option when it is set and the generated one when it is not |
| CommonParser.ResolveWritesOnlyIdentity | scripts/lib/common_parser.rb:77 | every key other than `identity` keeps its value, and the keys stay distinct |
| CommonParser.ResolveWritesIdentity | scripts/lib/common_parser.rb:77 | `identity` holds the serialised identity afterwards |
| CommonParser.ConstructorErrorsPropagate | scripts/lib/common_parser.rb:77 | once the base id and the option types pass, resolution fails iff a constructor check fails, raising the last failing check |
| CommonParser.WrittenIdentityParses | scripts/lib/common_parser.rb:77 | the identity written is valid and parses back, given a non-empty, separator-free token and a prefix other than `nanite`/`mapper` |
| CommonParser.WrittenIdentityParsesAsWritten | scripts/lib/common_parser.rb:77 | the identity written is also accepted by `valid?` and `parse` as written, and parses back, when none of its components holds a newline |
| CommonParser.Options.ResolveIdentity | scripts/lib/common_parser.rb:69-79 | the options are updated to what `Resolve` gives, or left unchanged while the exit or exception is reported |
| AgentUtils.Intern | scripts/lib/agent_utils.rb:50 | string keys become the symbol with the same name; other keys are kept |
| AgentUtils.LastValueFor | scripts/lib/agent_utils.rb:49-52 | a value is found iff some key interns to the one looked up |
| AgentUtils.LastValueForIsLast | scripts/lib/agent_utils.rb:49-52 | the value found is that of the last pair whose key interns to the one looked up |
| AgentUtils.Symbolize | scripts/lib/agent_utils.rb:47-54 | the loop builds the specified hash. Its keys are distinct, and each key holds the value of the last input pair that interns to it. It has at most as many entries as the input, and exactly as many when the interned keys are distinct |
| AgentUtils.SymbolizedDistinct | scripts/lib/agent_utils.rb:48-53 | no key occurs twice in the result |
| AgentUtils.SymbolizedGet | scripts/lib/agent_utils.rb:49-52 | the result maps each key to the last value stored under it, and values are carried over unchanged |
| AgentUtils.SymbolizedSize | scripts/lib/agent_utils.rb:48-53 | the result is no larger than the input, and the same size when the interned keys are distinct |
| RecipeInstantiation.New | lib/right_agent/core_payload_types/recipe_instantiation.rb:51-58 | field `i` is argument `i` when given, nil otherwise |
| RecipeInstantiation.SerializedMembers | lib/right_agent/core_payload_types/recipe_instantiation.rb:61-63 | the six fields in constructor order; NewOfSerializedMembers and MembersOfNew relate it to the constructor |
| RecipeInstantiation.MembersOfNew | lib/right_agent/core_payload_types/recipe_instantiation.rb:51-63 | with `k <= 6` arguments the members are the arguments followed by `6 - k` nils |
| RecipeInstantiation.ExtraArgumentsIgnored | lib/right_agent/core_payload_types/recipe_instantiation.rb:51-58 | arguments beyond the sixth are ignored |
| RecipeInstantiation.NewOfSerializedMembers | lib/right_agent/core_payload_types/recipe_instantiation.rb:51-63 | `new(*serialized_members)` rebuilds the recipe, so its members are equal |
| RecipeInstantiation.Title | lib/right_agent/core_payload_types/recipe_instantiation.rb:69-71 | the title is the first serialized member, the nickname |
| RecipeInstantiation.TitleOfNew | lib/right_agent/core_payload_types/recipe_instantiation.rb:51-71 | the title of a recipe built from arguments is its first argument |

## Left out

- `String#to_i` is modelled as an optional sign followed by leading digits. The leading whitespace and `_` digit separators Ruby also accepts are not modelled. The only place this matters is the canonical-form tests, where such strings are rejected in both readings.
- Somewhere a Ruby value lacks the method called on it (`to_sym`, `include?`, `gsub`, `to_i`), the model raises NoMethodError; this covers booleans, objects and integers in the cookbook repository's protocol. `Integer#to_sym` of old Ruby versions is not modelled. Arrays and hashes as option values are not modelled.
- The nil agent name check (agents/lib/common/agent_identity.rb:37) is unreachable, because line 35 calls `include?` on the name first; the model takes the agent name as a string.
- `Nanite::Identity.generate` (random token) is the parameter `generated`.
- `SEPARATOR_EPOCH` depends on the environment and is never used, so it is not modelled.
- AgentIdentity.ValidToS, AgentIdentity.IdentityParsesBack, AgentIdentity.TrailingSeparatorIsLost: require a non-empty token. An identity built with an empty token serialises to a string that `valid?` rejects, because part 2 is empty.
- AgentIdentity.ToSParse: requires the string not to end with a separator. `split` drops trailing empty fields, so a trailing separator does not survive the round trip (see AgentIdentity.TrailingSeparatorIsLost).
- AgentIdentity.Valid, AgentIdentity.Parse, AgentIdentity.ParseToS, AgentIdentity.IdentityParsesBack, AgentIdentity.ToSParse, AgentIdentity.TrailingSeparatorIsLost, CommonParser.WrittenIdentityParses: these use the begins-with reading of `valid_nanite?`, which is what its documentation promises (see Findings). AgentIdentity.ValidAsWritten and AgentIdentity.ParseAsWritten model the line-anchored match as written. The two readings agree on strings without a newline (AgentIdentity.AsWrittenAgreesWithoutNewline), so the round trips also hold as written when no component holds a newline (AgentIdentity.ParseToSAsWritten, AgentIdentity.IdentityParsesBackAsWritten, CommonParser.WrittenIdentityParsesAsWritten). With a newline in a component they can fail as written (AgentIdentity.NewlineBreaksRoundTripAsWritten).
- AgentIdentity.ParseToS: requires a prefix. A nil prefix prints as the empty string and comes back from `parse` as `""` (AgentIdentity.NilPrefixParsesAsEmpty).
- AgentIdentity.SameIdentity: compares two identities only. The `other.kind_of?` test of agents/lib/common/agent_identity.rb:156, which makes `==` false against anything that is not an identity, is not modelled.
- Multiplexer.Multiplexer.Add, Multiplexer.Multiplexer.Remove: return the target list as a value. In the source they return the live `@targets` array (agents/lib/common/multiplexer.rb:45, 57), so a caller who changes that array changes the multiplexer; this aliasing is not modelled.
- CommonParser.BaseIdCheck: gives NoMethodError for nil, although `nil.to_i` exists. It is only applied to a set (truthy) base id (scripts/lib/common_parser.rb:70), so nil never reaches it.
- `valid?` on non-strings is modelled with `None` standing for nil and for every value without `split` and `include?`.
- `method_missing` in the multiplexer is reflection (`__send__` of any method). It is modelled as a function from a target to a result. Side effects of the call on a target are not modelled.
- `puts` in `resolve_identity` is output only. It is left out, and `exit(1)` is the outcome `Exit(1)`.
- `parse_common` and the path helpers of the scripts are option-parser and file-system glue, not part of this model.
- `symbolize` takes its input as a value. That the input hash is not modified, and that the result is a fresh object, hold by construction; aliasing is not modelled.
- The `Serializable` mixin (serialisation of payload types) is not part of this model.
- The sender, dispatcher, instance scheduler and instance setup are not part of this model. Only their tests or thread- and event-loop-based code are present.

## Findings

| source | as written | input that shows it | evidently intended | confidence | as-written member | corrected member |
|---|---|---|---|---|---|---|
| agents/lib/common/agent_identity.rb:114 | `valid_nanite?` matches `/^(nanite\|mapper)-/`, and Ruby's `^` matches at the start of every line | "ab-def\nnanite-a-t-1" is taken for a nanite name. Seven characters are stripped, and `valid?` accepts what remains. Likewise the identity with agent name "a\nnanite" no longer parses back (AgentIdentity.NewlineBreaksRoundTripAsWritten) | the name begins with `nanite-` or `mapper-` (as the documentation at line 111 says), i.e. `\A` | not executed | AgentIdentity.NaniteLineAnchorCounterexample | AgentIdentity.StripNanite |
