/**
 * A cookbook repository (git, svn or a raw tar ball) and the file name it is
 * stored under: `to_s` turns the url, tag and cookbooks path into a string
 * that can serve as a Unix file name.
 */
module CookbookRepository {
  import opened Wrappers
  import opened RubyValues
  import opened RubyStrings

  /**
   * The seven fields. The protocol is a symbol, held here by its name; the
   * other fields hold whatever the caller passed.
   */
  datatype Repository = Repository(
    protocol: string, url: Value, tag: Value, cookbooksPath: Value,
    sshKey: Value, username: Value, password: Value)

  /** The Ruby exceptions the operations can raise on ill-typed fields. */
  datatype RubyError = NoMethodError | TypeError

  /** `v.to_sym`: strings and symbols have it, every other value raises NoMethodError. */
  function ToSym(v: Value): (r: Option<string>)
    ensures r.Some? <==> v.Str? || v.Sym?
    ensures v.Str? ==> r == Some(v.s)
    ensures v.Sym? ==> r == Some(v.name)
  {
    match v
    case Str(s) => Some(s)
    case Sym(n) => Some(n)
    case _ => None
  }

  /** `serialized_members`: the fields in constructor order. */
  function SerializedMembers(r: Repository): (m: seq<Value>)
    ensures |m| == 7
  {
    [Sym(r.protocol), r.url, r.tag, r.cookbooksPath, r.sshKey, r.username, r.password]
  }

  /**
   * `CookbookRepository.new(*args)`: the protocol is `args[0].to_sym`, every
   * later field is the argument at its position, or nil when fewer
   * arguments were given.
   */
  function New(args: seq<Value>): (r: Result<Repository, RubyError>)
    ensures r.Failure? <==> !(ArgAt(args, 0).Str? || ArgAt(args, 0).Sym?)
    ensures r.Failure? ==> r.error == NoMethodError
    ensures r.Success? ==> SerializedMembers(r.value)[0] == Sym(ToSym(ArgAt(args, 0)).value)
    ensures r.Success? ==> forall i :: 1 <= i < 7 ==> SerializedMembers(r.value)[i] == ArgAt(args, i)
  {
    match ToSym(ArgAt(args, 0))
    case None => Failure(NoMethodError)
    case Some(protocol) =>
      Success(Repository(protocol, ArgAt(args, 1), ArgAt(args, 2), ArgAt(args, 3),
                         ArgAt(args, 4), ArgAt(args, 5), ArgAt(args, 6)))
  }

  /** Constructing from the serialized members gives the same repository back. */
  lemma NewOfSerializedMembers(r: Repository)
    ensures New(SerializedMembers(r)) == Success(r)
  {
  }

  /**
   * The serialized members of a repository built from at most seven
   * arguments, the first a symbol, are those arguments padded with nil.
   */
  lemma {:induction false} SerializedMembersOfNew(args: seq<Value>)
    requires 1 <= |args| <= 7 && args[0].Sym?
    ensures New(args).Success?
    ensures SerializedMembers(New(args).value) == args + seq(7 - |args|, _ => Nil)
  {
    var m := SerializedMembers(New(args).value);
    var padded := args + seq(7 - |args|, _ => Nil);
    forall i | 0 <= i < 7
      ensures m[i] == padded[i]
    {
      if i >= |args| {
        assert ArgAt(args, i) == Nil;
      }
    }
  }

  /** Arguments beyond the seventh are ignored. */
  lemma ExtraArgumentsIgnored(args: seq<Value>, extra: seq<Value>)
    requires |args| >= 7
    ensures New(args + extra) == New(args)
  {
    assert forall i :: 0 <= i < 7 ==> ArgAt(args + extra, i) == ArgAt(args, i);
  }

  /** The names under which `from_hash` looks the fields up. */
  const FieldNames: seq<string> := ["protocol", "url", "tag", "cookbooks_path", "ssh_key", "username", "password"]

  /** `from_hash(h)`: the constructor applied to the hash's values for the field names. */
  function FromHash(h: Hash): (r: Result<Repository, RubyError>)
    ensures r.Failure? <==> !(Fetch(h, Sym("protocol")).Str? || Fetch(h, Sym("protocol")).Sym?)
    ensures r.Success? ==> SerializedMembers(r.value)[0] == Sym(ToSym(Fetch(h, Sym("protocol"))).value)
    ensures r.Success? ==> forall i :: 1 <= i < 7 ==> SerializedMembers(r.value)[i] == Fetch(h, Sym(FieldNames[i]))
  {
    New(seq(7, i requires 0 <= i < 7 => Fetch(h, Sym(FieldNames[i]))))
  }

  /** The hash that has each field under its name. */
  function MembersHash(r: Repository): (h: Hash)
    ensures |h| == 7
  {
    seq(7, i requires 0 <= i < 7 => (Sym(FieldNames[i]), SerializedMembers(r)[i]))
  }

  lemma MembersHashDistinct(r: Repository)
    ensures DistinctKeys(MembersHash(r))
  {
    var ks := Keys(MembersHash(r));
    assert forall i :: 0 <= i < 7 ==> ks[i] == Sym(FieldNames[i]);
    assert forall i, j :: 0 <= i < j < 7 ==> FieldNames[i] != FieldNames[j];
  }

  /** `from_hash` of the hash of a repository's fields reproduces the repository. */
  lemma FromHashOfMembers(r: Repository)
    ensures FromHash(MembersHash(r)) == Success(r)
  {
    var h := MembersHash(r);
    MembersHashDistinct(r);
    var args := seq(7, i requires 0 <= i < 7 => Fetch(h, Sym(FieldNames[i])));
    forall i | 0 <= i < 7
      ensures args[i] == SerializedMembers(r)[i]
    {
      assert h[i].0 == Sym(FieldNames[i]);
    }
    assert args == SerializedMembers(r);
    NewOfSerializedMembers(r);
  }

  /** The characters `to_s` replaces within a path component: `:`, `&`, `%`, `+` and `.`. */
  predicate IsSanitized(c: char) {
    c == ':' || c == '&' || c == '%' || c == '+' || c == '.'
  }

  predicate IsSlash(c: char) {
    c == '/'
  }

  /** Every character `to_s` turns into `-`, whether by `split` and `join` or by `gsub`. */
  predicate IsDashed(c: char) {
    IsSlash(c) || IsSanitized(c)
  }

  /** `s.gsub(pattern, '-')` for a pattern matching the single characters `target` accepts. */
  function Dash(s: string, target: char -> bool): (r: string)
    ensures |r| == |s|
    ensures forall i :: 0 <= i < |s| ==> r[i] == if target(s[i]) then '-' else s[i]
  {
    if |s| == 0 then "" else [if target(s[0]) then '-' else s[0]] + Dash(s[1..], target)
  }

  lemma DashConcat(a: string, b: string, target: char -> bool)
    ensures Dash(a + b, target) == Dash(a, target) + Dash(b, target)
  {
    var l := Dash(a + b, target);
    var r := Dash(a, target) + Dash(b, target);
    assert forall i :: 0 <= i < |l| ==> l[i] == r[i];
  }

  /** `to_filename`: `path.gsub('/', '-')`. */
  function ToFilename(path: string): (name: string)
    ensures |name| == |path|
    ensures '/' !in name
    ensures forall i :: 0 <= i < |path| ==> name[i] == if path[i] == '/' then '-' else path[i]
  {
    Dash(path, IsSlash)
  }

  /** The same string with `:`, `&`, `%`, `+` and `.` replaced by `-`. */
  function Sanitize(component: string): (r: string)
    ensures |r| == |component|
    ensures forall c :: c in r ==> !IsSanitized(c)
  {
    Dash(component, IsSanitized)
  }

  function SanitizeAll(components: seq<string>): (r: seq<string>)
    ensures |r| == |components|
    ensures forall i :: 0 <= i < |r| ==> r[i] == Sanitize(components[i])
  {
    seq(|components|, i requires 0 <= i < |components| => Sanitize(components[i]))
  }

  /** No two dashes in a row. */
  predicate NoDoubleDash(s: string) {
    forall i :: 0 <= i < |s| - 1 ==> !(s[i] == '-' && s[i + 1] == '-')
  }

  /** `gsub(/-+/, '-')`: every run of dashes becomes a single dash. */
  function CollapseDashes(s: string): (r: string)
    ensures |r| <= |s|
    ensures |s| > 0 ==> |r| > 0 && r[0] == s[0]
    ensures forall c :: c in r ==> c in s
    ensures NoDoubleDash(r)
  {
    if |s| <= 1 then s
    else if s[0] == '-' && s[1] == '-' then CollapseDashes(s[1..])
    else [s[0]] + CollapseDashes(s[1..])
  }

  /** The characters of `s` other than dashes. */
  function WithoutDashes(s: string): string {
    if |s| == 0 then "" else (if s[0] == '-' then "" else [s[0]]) + WithoutDashes(s[1..])
  }

  /** Collapsing keeps every other character, in order. */
  lemma {:induction false} CollapseKeepsOthers(s: string)
    ensures WithoutDashes(CollapseDashes(s)) == WithoutDashes(s)
  {
    if |s| > 1 {
      CollapseKeepsOthers(s[1..]);
      if !(s[0] == '-' && s[1] == '-') {
        assert ([s[0]] + CollapseDashes(s[1..]))[1..] == CollapseDashes(s[1..]);
      }
    }
  }

  /** A string with no run of dashes is left as it is. */
  lemma {:induction false} CollapseWithoutRuns(s: string)
    requires NoDoubleDash(s)
    ensures CollapseDashes(s) == s
  {
    if |s| > 1 {
      var t := s[1..];
      assert NoDoubleDash(t) by {
        assert forall i :: 0 <= i < |t| ==> t[i] == s[i + 1];
      }
      CollapseWithoutRuns(s[1..]);
      assert !(s[0] == '-' && s[1] == '-');
      assert s == [s[0]] + s[1..];
    }
  }

  /** A run of two dashes collapses like a single one, so every run leaves exactly one dash. */
  lemma {:induction false} CollapseRun(a: string, b: string)
    ensures CollapseDashes(a + "--" + b) == CollapseDashes(a + "-" + b)
    decreases |a|
  {
    var s := a + "--" + b;
    var t := a + "-" + b;
    if |a| == 0 {
      assert s[1..] == t;
    } else {
      assert s[0] == t[0] && s[1] == t[1];
      assert s[1..] == a[1..] + "--" + b;
      assert t[1..] == a[1..] + "-" + b;
      CollapseRun(a[1..], b);
    }
  }

  lemma CollapseIdempotent(s: string)
    ensures CollapseDashes(CollapseDashes(s)) == CollapseDashes(s)
  {
    CollapseWithoutRuns(CollapseDashes(s));
  }

  /** The scheme separator whose first occurrence ends the part `to_s` ignores. */
  const SchemeSeparator: string := "://"

  /** The url without everything up to and including the first `://`, if it has one. */
  function AfterScheme(url: string): (base: string)
    ensures Index(url, SchemeSeparator).None? ==> base == url
    ensures Index(url, SchemeSeparator).Some? ==>
              url == url[..Index(url, SchemeSeparator).value] + SchemeSeparator + base
  {
    match Index(url, SchemeSeparator)
    case None => url
    case Some(i) =>
      assert url == url[..i] + url[i..i + 3] + url[i + 3..];
      url[i + 3..]
  }

  /** The base of `to_s`: the `/`-separated components, sanitised, joined with `-`, runs of `-` collapsed. */
  function BaseName(url: string): (r: string)
    ensures NoDoubleDash(r)
  {
    CollapseDashes(Join(SanitizeAll(Split(AfterScheme(url), '/')), "-"))
  }

  /**
   * An independent description of the base: the part after the scheme,
   * without the slashes it ends with, with every `/`, `:`, `&`, `%`, `+`
   * and `.` turned into `-`, runs of `-` collapsed.
   */
  function ReferenceBaseName(url: string): string {
    CollapseDashes(Dash(StripTrailing(AfterScheme(url), '/'), IsDashed))
  }

  /** Within one component, which has no `/`, sanitising is dashing. */
  lemma SanitizeIsDashed(p: string)
    requires '/' !in p
    ensures Sanitize(p) == Dash(p, IsDashed)
  {
    assert forall i :: 0 <= i < |p| ==> p[i] in p;
  }

  lemma DashAroundSlash(p: string, q: string)
    ensures Dash(p + "/" + q, IsDashed) == Dash(p, IsDashed) + "-" + Dash(q, IsDashed)
  {
    DashConcat(p + "/", q, IsDashed);
    DashConcat(p, "/", IsDashed);
  }

  /** Sanitising the components and joining them with `-` dashes the joined path. */
  lemma {:induction false} JoinSanitizeAll(parts: seq<string>)
    requires forall p :: p in parts ==> '/' !in p
    ensures Join(SanitizeAll(parts), "-") == Dash(Join(parts, "/"), IsDashed)
  {
    if |parts| == 1 {
      SanitizeIsDashed(parts[0]);
    } else if |parts| > 1 {
      var p := parts[0];
      var rest := parts[1..];
      JoinSanitizeAll(rest);
      SanitizeIsDashed(p);
      assert SanitizeAll(parts) == [Sanitize(p)] + SanitizeAll(rest);
      JoinCons(Sanitize(p), SanitizeAll(rest), "-");
      assert parts == [p] + rest;
      JoinCons(p, rest, "/");
      DashAroundSlash(p, Join(rest, "/"));
    }
  }

  lemma BaseNameReference(url: string)
    ensures BaseName(url) == ReferenceBaseName(url)
  {
    var base := AfterScheme(url);
    SplitFieldsFree(base, '/');
    JoinSanitizeAll(Split(base, '/'));
    JoinSplit(base, '/');
  }

  /** The base holds none of `/ : & % + .` and no two dashes in a row. */
  lemma BaseNameCharacters(url: string)
    ensures forall c :: c in BaseName(url) ==> !IsDashed(c)
    ensures NoDoubleDash(BaseName(url))
  {
    BaseNameReference(url);
  }

  /**
   * `to_s`. `include?` raises NoMethodError unless the url is a string,
   * `'-' + tag` raises TypeError unless a set tag is a string, and `gsub`
   * raises NoMethodError unless a set cookbooks path is a string.
   */
  function ToS(r: Repository): (res: Result<string, RubyError>)
    ensures res.Failure? <==>
      !r.url.Str? || (Truthy(r.tag) && !r.tag.Str?) || (Truthy(r.cookbooksPath) && !r.cookbooksPath.Str?)
    ensures res.Failure? ==>
      res.error == if r.url.Str? && Truthy(r.tag) && !r.tag.Str? then TypeError else NoMethodError
  {
    if !r.url.Str? then Failure(NoMethodError)
    else if Truthy(r.tag) && !r.tag.Str? then Failure(TypeError)
    else if Truthy(r.cookbooksPath) && !r.cookbooksPath.Str? then Failure(NoMethodError)
    else
      var base := BaseName(r.url.s);
      var withTag := if Truthy(r.tag) then base + ("-" + r.tag.s) else base;
      Success(if Truthy(r.cookbooksPath) then withTag + ("-" + ToFilename(r.cookbooksPath.s)) else withTag)
  }

  /** `to_s` reads only the url, the tag and the cookbooks path. */
  lemma ToSIgnoresCredentials(a: Repository, b: Repository)
    requires a.url == b.url && a.tag == b.tag && a.cookbooksPath == b.cookbooksPath
    ensures ToS(a) == ToS(b)
  {
  }

  /** Without tag and path, `to_s` is the base; a tag comes next and a path last, each after a `-`. */
  lemma ToSLayout(r: Repository)
    requires ToS(r).Success?
    ensures var base := BaseName(r.url.s);
      && StartsWith(ToS(r).value, base)
      && (!Truthy(r.tag) && !Truthy(r.cookbooksPath) ==> ToS(r).value == base)
      && (Truthy(r.tag) && !Truthy(r.cookbooksPath) ==> ToS(r).value == base + ("-" + r.tag.s))
      && (!Truthy(r.tag) && Truthy(r.cookbooksPath) ==> ToS(r).value == base + ("-" + ToFilename(r.cookbooksPath.s)))
      && (Truthy(r.tag) && Truthy(r.cookbooksPath) ==>
            ToS(r).value == base + ("-" + r.tag.s) + ("-" + ToFilename(r.cookbooksPath.s)))
  {
    var base := BaseName(r.url.s);
    var v := ToS(r).value;
    var withTag := if Truthy(r.tag) then base + ("-" + r.tag.s) else base;
    assert withTag[..|base|] == base;
    assert v[..|base|] == withTag[..|base|];
  }

  /** The result of `to_s` holds a `/` exactly when the tag does. */
  lemma ToSSlashOnlyFromTag(r: Repository)
    requires ToS(r).Success?
    ensures '/' in ToS(r).value <==> Truthy(r.tag) && '/' in r.tag.s
  {
    var base := BaseName(r.url.s);
    BaseNameCharacters(r.url.s);
    assert '/' !in base;
    var withTag := if Truthy(r.tag) then base + ("-" + r.tag.s) else base;
    assert '/' in withTag <==> Truthy(r.tag) && '/' in r.tag.s;
    if Truthy(r.cookbooksPath) {
      var f := ToFilename(r.cookbooksPath.s);
      assert '/' !in "-" + f;
    }
  }
}
