/**
 * Ruby's String#split with a one-character separator, Array#join and
 * String#start_with?, as the modelled code uses them.
 */
module RubyStrings {
  import opened Wrappers

  predicate StartsWith(s: string, p: string) {
    |p| <= |s| && s[..|p|] == p
  }

  /**
   * Every field between separators, empty ones included: the first step of
   * `s.split(sep)`. There is always one more field than separators.
   */
  function RawSplit(s: string, sep: char): (r: seq<string>)
    ensures |r| >= 1
  {
    FieldsFrom(s, sep, "")
  }

  /** The fields of `s`, where `current` is the part of the first field already read. */
  function FieldsFrom(s: string, sep: char, current: string): (r: seq<string>)
    ensures |r| >= 1
    decreases |s|
  {
    if |s| == 0 then [current]
    else if s[0] == sep then [current] + FieldsFrom(s[1..], sep, "")
    else FieldsFrom(s[1..], sep, current + [s[0]])
  }

  /** Ruby's split removes empty fields at the end of the result (and only there). */
  function DropTrailingEmpty(parts: seq<string>): (r: seq<string>)
    ensures |r| <= |parts| && r == parts[..|r|]
    ensures |r| > 0 ==> r[|r| - 1] != ""
    ensures forall i :: |r| <= i < |parts| ==> parts[i] == ""
  {
    if |parts| > 0 && parts[|parts| - 1] == "" then DropTrailingEmpty(parts[..|parts| - 1]) else parts
  }

  /** `s.split(sep)`: trailing empty fields are dropped, leading ones are kept. */
  function Split(s: string, sep: char): seq<string> {
    DropTrailingEmpty(RawSplit(s, sep))
  }

  /** `parts.join(sep)`. */
  function Join(parts: seq<string>, sep: string): string {
    if |parts| == 0 then ""
    else if |parts| == 1 then parts[0]
    else parts[0] + sep + Join(parts[1..], sep)
  }

  lemma {:induction false} FieldsFromFree(s: string, sep: char, current: string)
    requires sep !in current
    ensures forall p :: p in FieldsFrom(s, sep, current) ==> sep !in p
    decreases |s|
  {
    if |s| > 0 {
      if s[0] == sep {
        FieldsFromFree(s[1..], sep, "");
      } else {
        FieldsFromFree(s[1..], sep, current + [s[0]]);
      }
    }
  }

  lemma RawSplitFieldsFree(s: string, sep: char)
    ensures forall p :: p in RawSplit(s, sep) ==> sep !in p
  {
    FieldsFromFree(s, sep, "");
  }

  lemma {:induction false} FieldsFromNoSeparator(s: string, sep: char, current: string)
    requires sep !in s
    ensures FieldsFrom(s, sep, current) == [current + s]
    decreases |s|
  {
    if |s| > 0 {
      FieldsFromNoSeparator(s[1..], sep, current + [s[0]]);
      assert current + [s[0]] + s[1..] == current + s;
    } else {
      assert current + s == current;
    }
  }

  lemma {:induction false} FieldsFromCons(a: string, sep: char, b: string, current: string)
    requires sep !in a
    ensures FieldsFrom(a + [sep] + b, sep, current) == [current + a] + FieldsFrom(b, sep, "")
    decreases |a|
  {
    var s := a + [sep] + b;
    if |a| == 0 {
      assert s[1..] == b;
      assert current + a == current;
    } else {
      assert s[1..] == a[1..] + [sep] + b;
      FieldsFromCons(a[1..], sep, b, current + [a[0]]);
      assert current + [a[0]] + a[1..] == current + a;
    }
  }

  /** Splitting what was joined gives back the fields, provided none contains the separator. */
  lemma {:induction false} RawSplitJoin(parts: seq<string>, sep: char)
    requires |parts| >= 1
    requires forall p :: p in parts ==> sep !in p
    ensures RawSplit(Join(parts, [sep]), sep) == parts
  {
    if |parts| == 1 {
      FieldsFromNoSeparator(parts[0], sep, "");
      assert "" + parts[0] == parts[0];
    } else {
      RawSplitJoin(parts[1..], sep);
      FieldsFromCons(parts[0], sep, Join(parts[1..], [sep]), "");
      assert "" + parts[0] == parts[0];
      assert parts == [parts[0]] + parts[1..];
    }
  }

  lemma JoinCons(head: string, rest: seq<string>, sep: string)
    requires |rest| > 0
    ensures Join([head] + rest, sep) == head + sep + Join(rest, sep)
  {
    assert ([head] + rest)[1..] == rest;
  }

  lemma {:induction false} JoinFieldsFrom(s: string, sep: char, current: string)
    ensures Join(FieldsFrom(s, sep, current), [sep]) == current + s
    decreases |s|
  {
    if |s| > 0 {
      if s[0] == sep {
        JoinFieldsFrom(s[1..], sep, "");
        JoinCons(current, FieldsFrom(s[1..], sep, ""), [sep]);
        assert current + [sep] + ("" + s[1..]) == current + s;
      } else {
        JoinFieldsFrom(s[1..], sep, current + [s[0]]);
        assert current + [s[0]] + s[1..] == current + s;
      }
    }
  }

  /** Joining the fields with the separator restores the string. */
  lemma JoinRawSplit(s: string, sep: char)
    ensures Join(RawSplit(s, sep), [sep]) == s
  {
    JoinFieldsFrom(s, sep, "");
    assert "" + s == s;
  }

  lemma {:induction false} FieldsFromLast(s: string, sep: char, current: string)
    ensures var r := FieldsFrom(s, sep, current);
            r[|r| - 1] == "" <==> if |s| == 0 then current == "" else s[|s| - 1] == sep
    decreases |s|
  {
    if |s| > 0 {
      if s[0] == sep {
        FieldsFromLast(s[1..], sep, "");
      } else {
        FieldsFromLast(s[1..], sep, current + [s[0]]);
      }
    }
  }

  /** When the string does not end with the separator, split drops nothing. */
  lemma SplitKeepsAll(s: string, sep: char)
    requires |s| > 0 && s[|s| - 1] != sep
    ensures Split(s, sep) == RawSplit(s, sep)
  {
    FieldsFromLast(s, sep, "");
  }

  /** Split and join are inverse for fields that are free of the separator and end in a non-empty one. */
  lemma SplitJoin(parts: seq<string>, sep: char)
    requires |parts| >= 1 && parts[|parts| - 1] != ""
    requires forall p :: p in parts ==> sep !in p
    ensures Split(Join(parts, [sep]), sep) == parts
  {
    RawSplitJoin(parts, sep);
  }

  /** `s` without the run of `c` it ends with. */
  function StripTrailing(s: string, c: char): (t: string)
    ensures |t| <= |s| && t == s[..|t|]
    ensures |t| > 0 ==> t[|t| - 1] != c
    ensures forall i :: |t| <= i < |s| ==> s[i] == c
  {
    if |s| > 0 && s[|s| - 1] == c then StripTrailing(s[..|s| - 1], c) else s
  }

  lemma {:induction false} JoinSnoc(parts: seq<string>, last: string, sep: string)
    requires |parts| > 0
    ensures Join(parts + [last], sep) == Join(parts, sep) + sep + last
  {
    if |parts| == 1 {
      assert (parts + [last])[1..] == [last];
    } else {
      JoinSnoc(parts[1..], last, sep);
      assert (parts + [last])[1..] == parts[1..] + [last];
    }
  }

  /** A join ends with the last part. */
  lemma JoinEndsWithLast(parts: seq<string>, sep: string)
    requires |parts| > 0
    ensures var j := Join(parts, sep); var l := parts[|parts| - 1];
            |l| <= |j| && j[|j| - |l|..] == l
  {
    if |parts| > 1 {
      var init := parts[..|parts| - 1];
      assert parts == init + [parts[|parts| - 1]];
      JoinSnoc(init, parts[|parts| - 1], sep);
    }
  }

  /** Dropping empty fields at the end of a join drops the separators they leave behind, and no more. */
  lemma {:induction false} JoinDropTrailingEmpty(parts: seq<string>, c: char)
    requires |parts| >= 1
    requires forall p :: p in parts ==> c !in p
    ensures Join(DropTrailingEmpty(parts), [c]) == StripTrailing(Join(parts, [c]), c)
    decreases |parts|
  {
    var n := |parts|;
    var l := parts[n - 1];
    if l == "" {
      if n > 1 {
        var init := parts[..n - 1];
        assert parts == init + [""];
        JoinSnoc(init, "", [c]);
        var j := Join(init, [c]);
        assert Join(parts, [c]) == j + [c];
        assert (j + [c])[..|j|] == j;
        JoinDropTrailingEmpty(init, c);
      }
    } else {
      JoinEndsWithLast(parts, [c]);
      var j := Join(parts, [c]);
      assert j[|j| - 1] == l[|l| - 1];
      assert l[|l| - 1] in l;
    }
  }

  /** Joining what `split` returns gives the string back without its trailing separators. */
  lemma JoinSplit(s: string, c: char)
    ensures Join(Split(s, c), [c]) == StripTrailing(s, c)
  {
    RawSplitFieldsFree(s, c);
    JoinRawSplit(s, c);
    JoinDropTrailingEmpty(RawSplit(s, c), c);
  }

  /** Separator-free fields: each part of a split is free of the separator. */
  lemma SplitFieldsFree(s: string, c: char)
    ensures forall p :: p in Split(s, c) ==> c !in p
  {
    RawSplitFieldsFree(s, c);
    var r := RawSplit(s, c);
    var d := Split(s, c);
    assert forall i :: 0 <= i < |d| ==> d[i] == r[i];
  }

  /** `p` occurs in `s` at position `j`. */
  predicate OccursAt(s: string, p: string, j: nat) {
    j + |p| <= |s| && s[j..j + |p|] == p
  }

  /** `s.index(p, k)`: the first position at or after `k` where `p` occurs. */
  function IndexFrom(s: string, p: string, k: nat): (r: Option<nat>)
    ensures r.Some? ==> k <= r.value && OccursAt(s, p, r.value)
    ensures r.Some? ==> forall j :: k <= j < r.value ==> !OccursAt(s, p, j)
    ensures r.None? ==> forall j :: k <= j ==> !OccursAt(s, p, j)
    decreases |s| - k
  {
    if k + |p| > |s| then None
    else if s[k..k + |p|] == p then Some(k)
    else IndexFrom(s, p, k + 1)
  }

  /** `s.index(p)`; `s.include?(p)` holds exactly when it is not nil. */
  function Index(s: string, p: string): (r: Option<nat>)
    ensures r.Some? ==> OccursAt(s, p, r.value)
    ensures r.Some? ==> forall j :: 0 <= j < r.value ==> !OccursAt(s, p, j)
    ensures r.None? ==> forall j :: !OccursAt(s, p, j)
  {
    IndexFrom(s, p, 0)
  }
}
