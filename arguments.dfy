/** The argument builder: how a detailed dependency becomes the flags of a
    `cargo install` (or `cargo binstall`) command line.

    `Args` states the result through a table of the optional fields and
    their flags, in the order the builder emits them; `BuildArgs` is the
    builder itself, pushing flag and value one after the other, proved equal
    to `Args`. `ParseArgs` reads such a flag list back, and accepts the
    optional flags only in the table's order. */
module Arguments {
  import opened CargoToml

  const FeaturesFlag := "--features"
  const NoDefaultFeaturesFlag := "--no-default-features"

  /** The flags of the optional fields, in the order they are emitted. */
  const OptionalFlags: seq<string> :=
    ["--version", "--registry", "--index", "--path", "--git", "--branch", "--tag", "--rev"]

  /** The optional fields of a detail, in the order of `OptionalFlags`. */
  function OptionalValues(d: DependencyDetail): (values: seq<Option<string>>)
    ensures |values| == |OptionalFlags|
  {
    [d.version, d.registry, d.registryIndex, d.path, d.git, d.branch, d.tag, d.rev]
  }

  // ---------------------------------------------------------------------
  // Joining the feature list

  /** `parts.join(sep)`: the parts with one separator between neighbours. */
  function Join(parts: seq<string>, sep: char): string
  {
    if |parts| == 0 then ""
    else if |parts| == 1 then parts[0]
    else parts[0] + [sep] + Join(parts[1..], sep)
  }

  /** Cuts a string at every separator. */
  function Split(s: string, sep: char): (parts: seq<string>)
    ensures |parts| >= 1
  {
    if s == [] then [""]
    else
      var rest := Split(s[1..], sep);
      if s[0] == sep then [""] + rest
      else [[s[0]] + rest[0]] + rest[1..]
  }

  /** A separator-free prefix joins the first part of what follows it. */
  lemma {:induction false} SplitSeparatorFree(a: string, b: string, sep: char)
    requires sep !in a
    ensures Split(a + b, sep) == [a + Split(b, sep)[0]] + Split(b, sep)[1..]
    decreases |a|
  {
    if a == [] {
      var parts := Split(b, sep);
      assert a + b == b;
      assert a + parts[0] == parts[0];
      assert parts == [parts[0]] + parts[1..];
    } else {
      assert (a + b)[0] == a[0];
      assert (a + b)[1..] == a[1..] + b;
      SplitSeparatorFree(a[1..], b, sep);
      assert [a[0]] + (a[1..] + Split(b, sep)[0]) == a + Split(b, sep)[0];
    }
  }

  /** Joining a non-empty list of separator-free features loses nothing:
      splitting the joined string gives the list back. */
  lemma {:induction false} SplitJoin(parts: seq<string>, sep: char)
    requires parts != []
    requires forall i :: 0 <= i < |parts| ==> sep !in parts[i]
    ensures Split(Join(parts, sep), sep) == parts
    decreases |parts|
  {
    if |parts| == 1 {
      SplitSeparatorFree(parts[0], "", sep);
      assert parts[0] + "" == parts[0];
    } else {
      var tail := Join(parts[1..], sep);
      assert Join(parts, sep) == parts[0] + ([sep] + tail);
      SplitSeparatorFree(parts[0], [sep] + tail, sep);
      assert ([sep] + tail)[1..] == tail;
      assert Split([sep] + tail, sep) == [""] + Split(tail, sep);
      SplitJoin(parts[1..], sep);
      assert parts[0] + "" == parts[0];
      assert parts == [parts[0]] + parts[1..];
    }
  }

  // ---------------------------------------------------------------------
  // What the builder produces

  /** `[flag, value]` when the field is present, nothing when it is not. */
  function FlagValue(flag: string, value: Option<string>): seq<string>
  {
    match value
    case Some(v) => [flag, v]
    case None => []
  }

  /** The flag-value pairs of the fields from `lo` up to, not including, `hi`. */
  function Pairs(flags: seq<string>, values: seq<Option<string>>, lo: nat, hi: nat): seq<string>
    requires lo <= hi <= |flags| == |values|
    decreases hi - lo
  {
    if hi == lo then []
    else Pairs(flags, values, lo, hi - 1) + FlagValue(flags[hi - 1], values[hi - 1])
  }

  /** The indices of the present fields from `lo` up to `hi`, ascending. */
  function Present(values: seq<Option<string>>, lo: nat, hi: nat): (ix: seq<nat>)
    requires lo <= hi <= |values|
    ensures forall k :: 0 <= k < |ix| ==> lo <= ix[k] < hi && values[ix[k]].Some?
    ensures forall k, l :: 0 <= k < l < |ix| ==> ix[k] < ix[l]
    ensures forall i :: lo <= i < hi && values[i].Some? ==> i in ix
    decreases hi - lo
  {
    if hi == lo then []
    else Present(values, lo, hi - 1) + (if values[hi - 1].Some? then [hi - 1] else [])
  }

  /** The trailing flag: present only when default features are switched off explicitly. */
  function Trailer(d: DependencyDetail): seq<string>
  {
    if d.defaultFeatures == Some(false) then [NoDefaultFeaturesFlag] else []
  }

  /** What the builder returns for a detail. */
  function Args(d: DependencyDetail): seq<string>
  {
    Pairs(OptionalFlags, OptionalValues(d), 0, |OptionalFlags|) + [FeaturesFlag, Join(d.features, ',')] + Trailer(d)
  }

  /** `pairs` holds, for each index in `ix` in turn, that field's flag
      followed by its value. */
  ghost predicate LaidOut(flags: seq<string>, values: seq<Option<string>>, pairs: seq<string>, ix: seq<nat>)
  {
    && |pairs| == 2 * |ix|
    && forall k :: 0 <= k < |ix| ==>
         ix[k] < |flags| && ix[k] < |values| &&
         pairs[2 * k] == flags[ix[k]] && Some(pairs[2 * k + 1]) == values[ix[k]]
  }

  /** Appending a present field's pair keeps the layout. */
  lemma LaidOutSnoc(flags: seq<string>, values: seq<Option<string>>, pairs: seq<string>, ix: seq<nat>, i: nat)
    requires LaidOut(flags, values, pairs, ix)
    requires i < |flags| && i < |values| && values[i].Some?
    ensures LaidOut(flags, values, pairs + [flags[i], values[i].value], ix + [i])
  {
  }

  /** The pairs list the present fields, and only those, each as its flag
      followed by its value, in ascending field order. */
  lemma {:induction false} PairsLayout(flags: seq<string>, values: seq<Option<string>>, lo: nat, hi: nat)
    requires lo <= hi <= |flags| == |values|
    ensures LaidOut(flags, values, Pairs(flags, values, lo, hi), Present(values, lo, hi))
    decreases hi - lo
  {
    if lo < hi {
      PairsLayout(flags, values, lo, hi - 1);
      if values[hi - 1].Some? {
        LaidOutSnoc(flags, values, Pairs(flags, values, lo, hi - 1), Present(values, lo, hi - 1), hi - 1);
      }
    }
  }

  /** Fields that are all absent contribute nothing. */
  lemma {:induction false} PairsAbsent(flags: seq<string>, values: seq<Option<string>>, lo: nat, hi: nat)
    requires lo <= hi <= |flags| == |values|
    requires forall i :: lo <= i < hi ==> values[i].None?
    ensures Pairs(flags, values, lo, hi) == []
    decreases hi - lo
  {
    if lo < hi {
      PairsAbsent(flags, values, lo, hi - 1);
    }
  }

  /** The whole layout of the builder's output: the present optional fields
      as flag-value pairs in table order, then `--features` with the joined
      feature list (the empty string when there are none), then
      `--no-default-features` exactly when default features are switched off
      explicitly; its length is twice the number of present fields, plus two,
      plus one for the trailing flag. */
  lemma ArgsLayout(d: DependencyDetail)
    ensures var ix, r := Present(OptionalValues(d), 0, |OptionalFlags|), Args(d);
      var n := 2 * |ix|;
      && |r| == n + 2 + (if d.defaultFeatures == Some(false) then 1 else 0)
      && (forall k :: 0 <= k < |ix| ==>
            r[2 * k] == OptionalFlags[ix[k]] && Some(r[2 * k + 1]) == OptionalValues(d)[ix[k]])
      && r[n] == FeaturesFlag
      && r[n + 1] == Join(d.features, ',')
      && (d.features == [] ==> r[n + 1] == "")
      && (d.defaultFeatures == Some(false) ==> r[n + 2] == NoDefaultFeaturesFlag)
  {
    PairsLayout(OptionalFlags, OptionalValues(d), 0, |OptionalFlags|);
  }

  /** A detail with no optional field, no feature and no default-features
      setting gives exactly `--features ""`. */
  lemma EmptyDetailArgs()
    ensures Args(DependencyDetail(None, None, None, None, None, None, None, None, None, [], None))
            == [FeaturesFlag, ""]
  {
    var d := DependencyDetail(None, None, None, None, None, None, None, None, None, [], None);
    PairsAbsent(OptionalFlags, OptionalValues(d), 0, |OptionalFlags|);
  }

  // ---------------------------------------------------------------------
  // The builder

  /** One `if let Some(value)` block of the builder: pushes the flag, then
      the value, when the field is present. */
  method PushFlag(args: seq<string>, flag: string, value: Option<string>) returns (args': seq<string>)
    ensures args' == args + FlagValue(flag, value)
  {
    args' := args;
    if value.Some? {
      args' := args' + [flag];
      args' := args' + [value.value];
    }
  }

  /** `build_args`: pushes a flag and its value for each present optional
      field in table order, then the feature pair, then the trailing flag. */
  method BuildArgs(d: DependencyDetail) returns (args: seq<string>)
    ensures args == Args(d)
  {
    ghost var values := OptionalValues(d);
    args := [];
    args := PushFlag(args, "--version", d.version);
    assert args == Pairs(OptionalFlags, values, 0, 1);
    args := PushFlag(args, "--registry", d.registry);
    assert args == Pairs(OptionalFlags, values, 0, 2);
    args := PushFlag(args, "--index", d.registryIndex);
    assert args == Pairs(OptionalFlags, values, 0, 3);
    args := PushFlag(args, "--path", d.path);
    assert args == Pairs(OptionalFlags, values, 0, 4);
    args := PushFlag(args, "--git", d.git);
    assert args == Pairs(OptionalFlags, values, 0, 5);
    args := PushFlag(args, "--branch", d.branch);
    assert args == Pairs(OptionalFlags, values, 0, 6);
    args := PushFlag(args, "--tag", d.tag);
    assert args == Pairs(OptionalFlags, values, 0, 7);
    args := PushFlag(args, "--rev", d.rev);
    assert args == Pairs(OptionalFlags, values, 0, 8);
    args := args + [FeaturesFlag];
    args := args + [Join(d.features, ',')];
    if d.defaultFeatures == Some(false) {
      args := args + [NoDefaultFeaturesFlag];
    }
  }

  // ---------------------------------------------------------------------
  // Reading a flag list back

  /** The options a flag list carries: the optional values in table order,
      the feature string, and whether default features are off. */
  datatype InstallOptions = InstallOptions(
    values: seq<Option<string>>,
    features: string,
    noDefaultFeatures: bool)

  /** The options a detail asks for. */
  function Options(d: DependencyDetail): InstallOptions
  {
    InstallOptions(OptionalValues(d), Join(d.features, ','), d.defaultFeatures == Some(false))
  }

  /** Reads the optional flags from `lo` onwards, each at most once and
      only in table order; returns their values and the unread tokens. */
  function ParseFlags(flags: seq<string>, lo: nat, tokens: seq<string>)
    : (r: (seq<Option<string>>, seq<string>))
    requires lo <= |flags|
    ensures |r.0| == |flags| - lo
    decreases |flags| - lo
  {
    if lo == |flags| then ([], tokens)
    else if |tokens| >= 2 && tokens[0] == flags[lo] then
      var r := ParseFlags(flags, lo + 1, tokens[2..]);
      ([Some(tokens[1])] + r.0, r.1)
    else
      var r := ParseFlags(flags, lo + 1, tokens);
      ([None] + r.0, r.1)
  }

  /** Reads a whole flag list: the optional flags in table order, then the
      feature pair, then at most the trailing flag; anything else is refused. */
  function ParseArgs(tokens: seq<string>): Option<InstallOptions>
  {
    var (values, rest) := ParseFlags(OptionalFlags, 0, tokens);
    if |rest| >= 2 && rest[0] == FeaturesFlag && (rest[2..] == [] || rest[2..] == [NoDefaultFeaturesFlag])
    then Some(InstallOptions(values, rest[1], rest[2..] != []))
    else None
  }

  predicate Distinct(flags: seq<string>)
  {
    forall i, j :: 0 <= i < j < |flags| ==> flags[i] != flags[j]
  }

  /** The pairs of a range start with the pair of its first field. */
  lemma {:induction false} PairsFront(flags: seq<string>, values: seq<Option<string>>, lo: nat, hi: nat)
    requires lo < hi <= |flags| == |values|
    ensures Pairs(flags, values, lo, hi) == FlagValue(flags[lo], values[lo]) + Pairs(flags, values, lo + 1, hi)
    decreases hi - lo
  {
    if lo + 1 < hi {
      PairsFront(flags, values, lo, hi - 1);
      var last := FlagValue(flags[hi - 1], values[hi - 1]);
      assert Pairs(flags, values, lo, hi)
          == (FlagValue(flags[lo], values[lo]) + Pairs(flags, values, lo + 1, hi - 1)) + last;
    }
  }

  /** Reading back the pairs of distinct flags returns every value, as long
      as what follows does not start with one of those flags. */
  lemma {:induction false} ParseFlagsPairs(flags: seq<string>, values: seq<Option<string>>, lo: nat, rest: seq<string>)
    requires |flags| == |values| && lo <= |flags|
    requires Distinct(flags)
    requires rest == [] || rest[0] !in flags
    ensures ParseFlags(flags, lo, Pairs(flags, values, lo, |flags|) + rest) == (values[lo..], rest)
    decreases |flags| - lo
  {
    if lo < |flags| {
      PairsFront(flags, values, lo, |flags|);
      ParseFlagsPairs(flags, values, lo + 1, rest);
      if values[lo].None? {
        NextToken(flags, values, lo + 1, rest);
      }
      ParseStep(flags, values, lo, Pairs(flags, values, lo, |flags|), Pairs(flags, values, lo + 1, |flags|), rest);
    } else {
      assert Pairs(flags, values, lo, |flags|) + rest == rest;
      assert values[lo..] == [];
    }
  }

  /** The step of `ParseFlagsPairs`: one more field in front of fields
      that read back. */
  lemma ParseStep(flags: seq<string>, values: seq<Option<string>>, lo: nat,
                  pairs: seq<string>, later: seq<string>, rest: seq<string>)
    requires lo < |flags| == |values|
    requires pairs == FlagValue(flags[lo], values[lo]) + later
    requires ParseFlags(flags, lo + 1, later + rest) == (values[lo + 1..], rest)
    requires values[lo].None? ==> later + rest == [] || (later + rest)[0] != flags[lo]
    ensures ParseFlags(flags, lo, pairs + rest) == (values[lo..], rest)
  {
    ConcatAssoc(FlagValue(flags[lo], values[lo]), later, rest);
    ParseField(flags, values[lo], lo, later + rest);
    DropFirst(values, lo);
  }

  /** Concatenation regroups. */
  lemma ConcatAssoc(a: seq<string>, b: seq<string>, c: seq<string>)
    ensures (a + b) + c == a + (b + c)
  {
  }

  /** A suffix is its first value followed by the rest. */
  lemma DropFirst(values: seq<Option<string>>, lo: nat)
    requires lo < |values|
    ensures values[lo..] == [values[lo]] + values[lo + 1..]
  {
  }

  /** One field read back: its flag and value when it is present, nothing
      when it is absent and its flag is not next. */
  lemma ParseField(flags: seq<string>, value: Option<string>, lo: nat, tokens: seq<string>)
    requires lo < |flags|
    requires value.None? ==> tokens == [] || tokens[0] != flags[lo]
    ensures var r := ParseFlags(flags, lo + 1, tokens);
      ParseFlags(flags, lo, FlagValue(flags[lo], value) + tokens) == ([value] + r.0, r.1)
  {
    if value.Some? {
      assert FlagValue(flags[lo], value) + tokens == [flags[lo], value.value] + tokens;
      ParseTake(flags, lo, value.value, tokens);
    } else {
      assert FlagValue(flags[lo], value) + tokens == tokens;
      ParseSkip(flags, lo, tokens);
    }
  }

  /** A flag in its place is read with the token after it as its value. */
  lemma ParseTake(flags: seq<string>, lo: nat, value: string, tokens: seq<string>)
    requires lo < |flags|
    ensures var r := ParseFlags(flags, lo + 1, tokens);
      ParseFlags(flags, lo, [flags[lo], value] + tokens) == ([Some(value)] + r.0, r.1)
  {
    assert ([flags[lo], value] + tokens)[2..] == tokens;
  }

  /** A field whose flag is not next is read as absent, consuming nothing. */
  lemma ParseSkip(flags: seq<string>, lo: nat, tokens: seq<string>)
    requires lo < |flags|
    requires tokens == [] || tokens[0] != flags[lo]
    ensures var r := ParseFlags(flags, lo + 1, tokens);
      ParseFlags(flags, lo, tokens) == ([None] + r.0, r.1)
  {
  }

  /** What follows the pairs of fields `lo` onwards never starts with the
      flag of an earlier field. */
  lemma NextToken(flags: seq<string>, values: seq<Option<string>>, lo: nat, rest: seq<string>)
    requires |flags| == |values| && 0 < lo <= |flags|
    requires Distinct(flags)
    requires rest == [] || rest[0] !in flags
    ensures var tokens := Pairs(flags, values, lo, |flags|) + rest;
      tokens == [] || tokens[0] != flags[lo - 1]
  {
    var pairs := Pairs(flags, values, lo, |flags|);
    if pairs != [] {
      PairsLayout(flags, values, lo, |flags|);
      var ix := Present(values, lo, |flags|);
      assert (pairs + rest)[0] == flags[ix[0]];
    } else {
      assert pairs + rest == rest;
    }
  }

  lemma OptionalFlagsDistinct()
    ensures Distinct(OptionalFlags)
    ensures FeaturesFlag !in OptionalFlags
  {
  }

  /** Reading back what the builder produces gives the options the detail
      asks for: every optional value, the joined features, and the
      default-features switch. */
  lemma ParseArgsInverse(d: DependencyDetail)
    ensures ParseArgs(Args(d)) == Some(Options(d))
  {
    OptionalFlagsDistinct();
    var tail := [FeaturesFlag, Join(d.features, ',')] + Trailer(d);
    assert Args(d) == Pairs(OptionalFlags, OptionalValues(d), 0, |OptionalFlags|) + tail;
    ParseFlagsPairs(OptionalFlags, OptionalValues(d), 0, tail);
    assert tail[2..] == Trailer(d);
  }
}
